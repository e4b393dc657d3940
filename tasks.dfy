/**
 The values the task manager works on: tasks, the form drafts, and the three
 collection transforms its handlers apply to the task list (append after a
 create, replace-by-id after an update, filter-by-id after a delete).
 */
module Tasks {

  datatype Option<+T> = None | Some(value: T)

  /** A server-assigned task identifier (the `_id` of a stored task). */
  type Id = string

  datatype Task = Task(id: Id, title: string, dueDate: string, description: string)
  {
    /** The task's value for one of the form's fields. */
    function Get(f: Field): string
    {
      match f
      case Title => title
      case DueDate => dueDate
      case Description => description
    }
  }

  /** The three editable fields of the form. */
  datatype Field = Title | DueDate | Description

  /** A form buffer: the create draft or the edit draft. */
  datatype Draft = Draft(title: string, dueDate: string, description: string)
  {
    function Get(f: Field): string
    {
      match f
      case Title => title
      case DueDate => dueDate
      case Description => description
    }

    /** The draft after the user types `v` into field `f`. */
    function With(f: Field, v: string): (d: Draft)
      ensures d.Get(f) == v
      ensures forall g :: g != f ==> d.Get(g) == Get(g)
    {
      match f
      case Title => this.(title := v)
      case DueDate => this.(dueDate := v)
      case Description => this.(description := v)
    }
  }

  const EmptyDraft := Draft("", "", "")

  /** The fields of `t` that the edit form shows; the identifier is not part of a draft. */
  function DraftOf(t: Task): (d: Draft)
    ensures forall f :: d.Get(f) == t.Get(f)
    ensures IsComplete(d) <==> forall f :: t.Get(f) != ""
  {
    Draft(t.title, t.dueDate, t.description)
  }

  /**
   The client-side check before a create or an update: every field must be
   truthy, and for the strings an input yields that means non-empty.
   */
  function IsComplete(d: Draft): (ok: bool)
    ensures ok <==> forall f :: d.Get(f) != ""
  {
    assert d.title == d.Get(Title) && d.dueDate == d.Get(DueDate) && d.description == d.Get(Description);
    d.title != "" && d.dueDate != "" && d.description != ""
  }

  /** JavaScript truthiness of the edit target: `null` and `""` are falsy. */
  predicate Truthy(target: Option<Id>)
  {
    target.Some? && target.value != ""
  }

  /** Strict equality `task._id === target`; a null target matches no task. */
  predicate Matches(t: Task, target: Option<Id>)
  {
    target == Some(t.id)
  }

  // ---------------------------------------------------------------------------
  // The collection transforms

  /** `[...tasks, created]`: the list after a successful create. */
  function Appended(s: seq<Task>, t: Task): (r: seq<Task>)
    ensures |r| == |s| + 1
    ensures r[..|s|] == s && r[|s|] == t
    ensures multiset(r) == multiset(s) + multiset{t}
  {
    s + [t]
  }

  /** `tasks.map(task => task._id === target ? updated : task)`. */
  function Replaced(s: seq<Task>, target: Option<Id>, t: Task): (r: seq<Task>)
    ensures |r| == |s|
  {
    if s == [] then []
    else [if Matches(s[0], target) then t else s[0]] + Replaced(s[1..], target, t)
  }

  /** `tasks.filter(task => task._id !== id)`. */
  function Removed(s: seq<Task>, id: Id): (r: seq<Task>)
    ensures |r| <= |s|
    ensures forall x :: x in r ==> x in s && x.id != id
  {
    if s == [] then []
    else if s[0].id == id then Removed(s[1..], id)
    else [s[0]] + Removed(s[1..], id)
  }

  /** How many entries of `s` carry identifier `id`. */
  function Count(s: seq<Task>, id: Id): nat
  {
    if s == [] then 0
    else (if s[0].id == id then 1 else 0) + Count(s[1..], id)
  }

  /** The identifiers of `s`, in list order. */
  function Ids(s: seq<Task>): (r: seq<Id>)
    ensures |r| == |s|
    ensures forall i :: 0 <= i < |s| ==> r[i] == s[i].id
  {
    if s == [] then [] else [s[0].id] + Ids(s[1..])
  }

  /** Assumed of the backend's list: no identifier appears twice. */
  predicate UniqueIds(s: seq<Task>)
  {
    forall i, j :: 0 <= i < j < |s| ==> s[i].id != s[j].id
  }

  // ---------------------------------------------------------------------------
  // Append

  /** Creating a task with a fresh identifier and then deleting it restores the list. */
  lemma {:induction false} AppendThenRemove(s: seq<Task>, t: Task)
    requires Count(s, t.id) == 0
    ensures Removed(Appended(s, t), t.id) == s
  {
    RemovedConcat(s, [t], t.id);
    RemovedAbsent(s, t.id);
    assert Removed([t], t.id) == [] by {
      assert [t][1..] == [];
    }
  }

  /** Identifiers stay unique after a create exactly when the new identifier is fresh. */
  lemma {:induction false} AppendedUnique(s: seq<Task>, t: Task)
    requires UniqueIds(s)
    ensures UniqueIds(Appended(s, t)) <==> Count(s, t.id) == 0
  {
    var r := Appended(s, t);
    if Count(s, t.id) == 0 {
      forall i, j | 0 <= i < j < |r| ensures r[i].id != r[j].id {
        if j == |s| {
          CountZeroAt(s, t.id, i);
        }
      }
    } else {
      var k := CountPositiveAt(s, t.id);
      assert r[k].id == r[|s|].id;
    }
  }

  // ---------------------------------------------------------------------------
  // Replace

  /** An update replaces exactly the matching entries and leaves every other one where it was. */
  lemma {:induction false} ReplacedAt(s: seq<Task>, target: Option<Id>, t: Task, i: nat)
    requires i < |s|
    ensures Replaced(s, target, t)[i] == if Matches(s[i], target) then t else s[i]
  {
    if i > 0 {
      ReplacedAt(s[1..], target, t, i - 1);
    }
  }

  /** A null target matches nothing, so the list is left as it was. */
  lemma {:induction false} ReplacedNoTarget(s: seq<Task>, t: Task)
    ensures Replaced(s, None, t) == s
  {
    forall i | 0 <= i < |s| ensures Replaced(s, None, t)[i] == s[i] {
      ReplacedAt(s, None, t, i);
    }
  }

  /** Replacing matching entries by a value they already have changes nothing. */
  lemma {:induction false} ReplacedIdentity(s: seq<Task>, target: Option<Id>, t: Task)
    requires forall i :: 0 <= i < |s| && Matches(s[i], target) ==> s[i] == t
    ensures Replaced(s, target, t) == s
  {
    forall i | 0 <= i < |s| ensures Replaced(s, target, t)[i] == s[i] {
      ReplacedAt(s, target, t, i);
    }
  }

  /**
   Selecting a listed task for editing and saving it unchanged (the backend
   echoing the same task) leaves the list as it was, in the same position.
   */
  lemma SaveUnchanged(s: seq<Task>, t: Task)
    requires UniqueIds(s) && t in s
    ensures Replaced(s, Some(t.id), t) == s
  {
    var k :| 0 <= k < |s| && s[k] == t;
    forall i | 0 <= i < |s| && Matches(s[i], Some(t.id)) ensures s[i] == t {
      if i != k {
        assert false;
      }
    }
    ReplacedIdentity(s, Some(t.id), t);
  }

  /** When the backend returns the task under the same identifier, the identifiers are unchanged. */
  lemma {:induction false} ReplacedIds(s: seq<Task>, target: Option<Id>, t: Task)
    requires target == Some(t.id)
    ensures Ids(Replaced(s, target, t)) == Ids(s)
  {
    var r := Replaced(s, target, t);
    forall i | 0 <= i < |s| ensures Ids(r)[i] == Ids(s)[i] {
      ReplacedAt(s, target, t, i);
    }
  }

  /** Hence an update that keeps the identifier keeps identifiers unique. */
  lemma ReplacedUnique(s: seq<Task>, target: Option<Id>, t: Task)
    requires UniqueIds(s) && target == Some(t.id)
    ensures UniqueIds(Replaced(s, target, t))
  {
    var r := Replaced(s, target, t);
    ReplacedIds(s, target, t);
    forall i, j | 0 <= i < j < |r| ensures r[i].id != r[j].id {
      assert Ids(r)[i] == Ids(s)[i] && Ids(r)[j] == Ids(s)[j];
    }
  }

  // ---------------------------------------------------------------------------
  // Remove

  /** An entry survives a delete exactly when it was listed and carries another identifier. */
  lemma {:induction false} RemovedMember(s: seq<Task>, id: Id, x: Task)
    ensures x in Removed(s, id) <==> x in s && x.id != id
  {
    if s != [] {
      RemovedMember(s[1..], id, x);
      assert s == [s[0]] + s[1..];
    }
  }

  /** A delete shortens the list by the number of entries that carried the identifier. */
  lemma {:induction false} RemovedLength(s: seq<Task>, id: Id)
    ensures |Removed(s, id)| == |s| - Count(s, id)
  {
    if s != [] {
      RemovedLength(s[1..], id);
    }
  }

  /** Filtering distributes over concatenation: survivors keep their relative order. */
  lemma {:induction false} RemovedConcat(a: seq<Task>, b: seq<Task>, id: Id)
    ensures Removed(a + b, id) == Removed(a, id) + Removed(b, id)
  {
    if a == [] {
      assert a + b == b;
    } else {
      var ab := a + b;
      assert ab[0] == a[0];
      assert ab[1..] == a[1..] + b;
      RemovedConcat(a[1..], b, id);
      if a[0].id == id {
        calc {
          Removed(ab, id);
          Removed(a[1..] + b, id);
          Removed(a[1..], id) + Removed(b, id);
          Removed(a, id) + Removed(b, id);
        }
      } else {
        calc {
          Removed(ab, id);
          [a[0]] + Removed(a[1..] + b, id);
          [a[0]] + (Removed(a[1..], id) + Removed(b, id));
          ([a[0]] + Removed(a[1..], id)) + Removed(b, id);
          Removed(a, id) + Removed(b, id);
        }
      }
    }
  }

  /** Deleting an identifier that is not listed leaves the list as it was. */
  lemma {:induction false} RemovedAbsent(s: seq<Task>, id: Id)
    requires Count(s, id) == 0
    ensures Removed(s, id) == s
  {
    if s != [] {
      RemovedAbsent(s[1..], id);
      assert s == [s[0]] + s[1..];
    }
  }

  /** No entry carries the deleted identifier afterwards, so deleting twice is deleting once. */
  lemma {:induction false} RemovedIdempotent(s: seq<Task>, id: Id)
    ensures Count(Removed(s, id), id) == 0
    ensures Removed(Removed(s, id), id) == Removed(s, id)
  {
    if s != [] {
      RemovedIdempotent(s[1..], id);
      if s[0].id != id {
        var r := Removed(s, id);
        assert r[1..] == Removed(s[1..], id);
      }
    }
    RemovedAbsent(Removed(s, id), id);
  }

  /** The survivors of a delete are exactly the matching-free subsequence of the old list. */
  lemma {:induction false} RemovedMultiset(s: seq<Task>, id: Id)
    ensures multiset(Removed(s, id)) <= multiset(s)
    ensures forall x: Task :: x.id != id ==> multiset(Removed(s, id))[x] == multiset(s)[x]
  {
    if s != [] {
      RemovedMultiset(s[1..], id);
      assert s == [s[0]] + s[1..];
    }
  }

  /** On a list the backend keeps duplicate-free, deleting a listed task removes exactly one entry. */
  lemma RemovedOne(s: seq<Task>, id: Id)
    requires UniqueIds(s) && id in Ids(s)
    ensures |Removed(s, id)| == |s| - 1
  {
    RemovedLength(s, id);
    var k :| 0 <= k < |s| && Ids(s)[k] == id;
    CountUnique(s, id, k);
  }

  /** A delete keeps identifiers unique. */
  lemma {:induction false} RemovedUnique(s: seq<Task>, id: Id)
    requires UniqueIds(s)
    ensures UniqueIds(Removed(s, id))
  {
    if s != [] {
      var tail := s[1..];
      assert UniqueIds(tail) by {
        forall i, j | 0 <= i < j < |tail| ensures tail[i].id != tail[j].id {
          assert tail[i] == s[i + 1] && tail[j] == s[j + 1];
        }
      }
      RemovedUnique(tail, id);
      if s[0].id != id {
        var r := Removed(s, id);
        assert r == [s[0]] + Removed(tail, id);
        forall k | 1 <= k < |r| ensures r[k].id != s[0].id {
          assert r[k] in Removed(tail, id);
          var i :| 0 <= i < |tail| && tail[i] == r[k];
          assert tail[i] == s[i + 1];
        }
      }
    }
  }

  // ---------------------------------------------------------------------------
  // Counting helpers

  lemma {:induction false} CountZeroAt(s: seq<Task>, id: Id, i: nat)
    requires Count(s, id) == 0 && i < |s|
    ensures s[i].id != id
  {
    if i > 0 {
      CountZeroAt(s[1..], id, i - 1);
    }
  }

  lemma {:induction false} CountPositiveAt(s: seq<Task>, id: Id) returns (k: nat)
    requires Count(s, id) > 0
    ensures k < |s| && s[k].id == id
  {
    if s[0].id == id {
      k := 0;
    } else {
      var j := CountPositiveAt(s[1..], id);
      k := j + 1;
    }
  }

  lemma {:induction false} CountUnique(s: seq<Task>, id: Id, k: nat)
    requires UniqueIds(s) && k < |s| && s[k].id == id
    ensures Count(s, id) == 1
  {
    if k == 0 {
      forall i | 0 <= i < |s[1..]| ensures s[1..][i].id != id {
        assert s[1..][i] == s[i + 1];
      }
      CountNone(s[1..], id);
    } else {
      CountUnique(s[1..], id, k - 1);
    }
  }

  lemma {:induction false} CountNone(s: seq<Task>, id: Id)
    requires forall i :: 0 <= i < |s| ==> s[i].id != id
    ensures Count(s, id) == 0
  {
    if s != [] {
      CountNone(s[1..], id);
    }
  }
}
