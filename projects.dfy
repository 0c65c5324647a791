/** The pure list operations the project handlers run over `data.projects`:
    `findIndex` and `find` by id, the `filter` that deletes, the in-place
    replacement at a found index, and the `Math.max(...ids) + 1` id
    assignment. */
module Projects {
  import opened Wrappers
  import opened Content

  /** No two projects share an id. */
  predicate UniqueIds(ps: seq<Project>) {
    forall i, j :: 0 <= i < j < |ps| ==> ps[i].id != ps[j].id
  }

  /** Some project has id `id`. */
  predicate HasId(ps: seq<Project>, id: int) {
    exists k :: 0 <= k < |ps| && ps[k].id == id
  }

  /** `projects.findIndex(p => p.id == id)`: the first position holding `id`,
      or -1 when no project has it. */
  function FindIndex(ps: seq<Project>, id: int): (r: int)
    ensures -1 <= r < |ps|
    ensures r == -1 <==> !HasId(ps, id)
    ensures r >= 0 ==> ps[r].id == id && forall j :: 0 <= j < r ==> ps[j].id != id
  {
    if ps == [] then -1
    else if ps[0].id == id then 0
    else
      var k := FindIndex(ps[1..], id);
      assert HasId(ps[1..], id) ==> HasId(ps, id) by {
        if HasId(ps[1..], id) {
          var j :| 0 <= j < |ps[1..]| && ps[1..][j].id == id;
          assert ps[j + 1].id == id;
        }
      }
      assert HasId(ps, id) ==> HasId(ps[1..], id) by {
        if HasId(ps, id) {
          var j :| 0 <= j < |ps| && ps[j].id == id;
          assert j > 0 && ps[1..][j - 1].id == id;
        }
      }
      if k == -1 then -1 else k + 1
  }

  /** `projects.find(p => p.id == id)`: the project at the first position
      holding `id`, or nothing. */
  function Find(ps: seq<Project>, id: int): (r: Option<Project>)
    ensures r.None? <==> !HasId(ps, id)
    ensures r.Some? ==> r.value.id == id && r.value == ps[FindIndex(ps, id)]
  {
    if ps == [] then None
    else if ps[0].id == id then Some(ps[0])
    else Find(ps[1..], id)
  }

  /** `projects.filter(p => p.id != id)`: the projects that do not carry
      `id`, in their original order. */
  function RemoveId(ps: seq<Project>, id: int): (r: seq<Project>)
    ensures forall p :: p in r <==> p in ps && p.id != id
    ensures |r| <= |ps|
    ensures !HasId(ps, id) ==> r == ps
  {
    if ps == [] then []
    else
      var rest := RemoveId(ps[1..], id);
      assert !HasId(ps, id) ==> !HasId(ps[1..], id) by {
        if HasId(ps[1..], id) {
          var j :| 0 <= j < |ps[1..]| && ps[1..][j].id == id;
          assert ps[j + 1].id == id;
        }
      }
      assert ps == [ps[0]] + ps[1..];
      if ps[0].id != id then [ps[0]] + rest else rest
  }

  /** Deleting distributes over concatenation: each part keeps its surviving
      projects in order, so the relative order of the rest is unchanged. */
  lemma {:induction false} RemoveIdConcat(a: seq<Project>, b: seq<Project>, id: int)
    ensures RemoveId(a + b, id) == RemoveId(a, id) + RemoveId(b, id)
  {
    if a != [] {
      assert (a + b)[1..] == a[1..] + b;
      RemoveIdConcat(a[1..], b, id);
    } else {
      assert a + b == b;
    }
  }

  lemma UniqueTail(ps: seq<Project>)
    requires ps != [] && UniqueIds(ps)
    ensures UniqueIds(ps[1..])
    ensures forall p :: p in ps[1..] ==> p.id != ps[0].id
  {
    forall i, j | 0 <= i < j < |ps[1..]|
      ensures ps[1..][i].id != ps[1..][j].id
    {
      assert ps[1..][i] == ps[i + 1] && ps[1..][j] == ps[j + 1];
    }
    forall p | p in ps[1..]
      ensures p.id != ps[0].id
    {
      var k :| 0 <= k < |ps[1..]| && ps[1..][k] == p;
      assert ps[k + 1] == p;
    }
  }

  /** With unique ids, deleting removes at most the one project with `id`. */
  lemma {:induction false} RemoveIdUniqueLength(ps: seq<Project>, id: int)
    requires UniqueIds(ps)
    ensures |RemoveId(ps, id)| == if HasId(ps, id) then |ps| - 1 else |ps|
  {
    if ps != [] {
      UniqueTail(ps);
      RemoveIdUniqueLength(ps[1..], id);
      if ps[0].id == id {
        assert !HasId(ps[1..], id) by {
          forall j | 0 <= j < |ps[1..]| ensures ps[1..][j].id != id {
            assert ps[1..][j] == ps[j + 1];
          }
        }
      } else {
        assert HasId(ps, id) <==> HasId(ps[1..], id) by {
          if HasId(ps, id) {
            var j :| 0 <= j < |ps| && ps[j].id == id;
            assert ps[1..][j - 1].id == id;
          }
          if HasId(ps[1..], id) {
            var j :| 0 <= j < |ps[1..]| && ps[1..][j].id == id;
            assert ps[j + 1].id == id;
          }
        }
      }
    }
  }

  /** The filtered list keeps unique ids unique. */
  lemma {:induction false} RemoveIdKeepsUnique(ps: seq<Project>, id: int)
    requires UniqueIds(ps)
    ensures UniqueIds(RemoveId(ps, id))
  {
    if ps != [] {
      UniqueTail(ps);
      RemoveIdKeepsUnique(ps[1..], id);
      var rest := RemoveId(ps[1..], id);
      if ps[0].id != id {
        var r := [ps[0]] + rest;
        forall i, j | 0 <= i < j < |r| ensures r[i].id != r[j].id {
          if i == 0 {
            assert r[j] == rest[j - 1];
            assert r[j] in ps[1..];
          } else {
            assert r[i] == rest[i - 1] && r[j] == rest[j - 1];
          }
        }
      }
    }
  }

  /** `projects[index] = p` at `index = findIndex(id)` when that is not -1:
      only the first project holding `id` is replaced, in place. */
  function UpdateById(ps: seq<Project>, id: int, p: Project): (r: seq<Project>)
    ensures |r| == |ps|
    ensures !HasId(ps, id) ==> r == ps
    ensures HasId(ps, id) ==> r[FindIndex(ps, id)] == p
    ensures forall j :: 0 <= j < |ps| && j != FindIndex(ps, id) ==> r[j] == ps[j]
  {
    var index := FindIndex(ps, id);
    if index == -1 then ps else ps[index := p]
  }

  /** Saving the same project twice under its own id gives the same list as
      saving it once: no id drift, the position is kept. */
  lemma UpdateIdempotent(ps: seq<Project>, id: int, p: Project)
    requires p.id == id
    ensures UpdateById(UpdateById(ps, id, p), id, p) == UpdateById(ps, id, p)
  {
    var once := UpdateById(ps, id, p);
    if HasId(ps, id) {
      var index := FindIndex(ps, id);
      assert FindIndex(once, id) == index by {
        assert once[index].id == id;
        assert forall j :: 0 <= j < index ==> once[j] == ps[j];
      }
    }
  }

  /** Replacing a project by one with the same id keeps the ids unique. */
  lemma UpdateKeepsUnique(ps: seq<Project>, id: int, p: Project)
    requires UniqueIds(ps) && p.id == id
    ensures UniqueIds(UpdateById(ps, id, p))
  {
    var r := UpdateById(ps, id, p);
    forall i, j | 0 <= i < j < |r| ensures r[i].id != r[j].id {
      assert r[i].id == ps[i].id && r[j].id == ps[j].id;
    }
  }

  /** `Math.max(...ids)` over a non-empty list: an id that occurs, and no
      smaller than any id. */
  function MaxId(ps: seq<Project>): (m: int)
    requires |ps| > 0
    ensures exists k :: 0 <= k < |ps| && ps[k].id == m
    ensures forall k :: 0 <= k < |ps| ==> ps[k].id <= m
  {
    if |ps| == 1 then ps[0].id
    else
      var rest := MaxId(ps[1..]);
      assert forall k :: 1 <= k < |ps| ==> ps[k] == ps[1..][k - 1];
      var k :| 0 <= k < |ps[1..]| && ps[1..][k].id == rest;
      assert ps[k + 1].id == rest;
      if ps[0].id >= rest then ps[0].id else rest
  }

  /** The id given to a new project: one more than the largest id, and 1 for
      the first project (see `NextIdAsWritten` for what the source does on an
      empty list). It is larger than, hence different from, every id in use. */
  function NextId(ps: seq<Project>): (r: int)
    ensures forall k :: 0 <= k < |ps| ==> ps[k].id < r
    ensures ps == [] ==> r == 1
    ensures ps != [] ==> HasId(ps, r - 1)
  {
    if ps == [] then 1 else MaxId(ps) + 1
  }

  /** Appending a project under `NextId` keeps the ids unique. */
  lemma AppendKeepsUnique(ps: seq<Project>, p: Project)
    requires UniqueIds(ps) && p.id == NextId(ps)
    ensures UniqueIds(ps + [p])
  {
    var r := ps + [p];
    forall i, j | 0 <= i < j < |r| ensures r[i].id != r[j].id {
      if j == |ps| {
        assert r[i] == ps[i];
      } else {
        assert r[i] == ps[i] && r[j] == ps[j];
      }
    }
  }

  /** Ids can be reused: the next id is one more than the largest remaining
      id, so deleting the project with the largest id hands that id out again
      when the id just below it is still in use, as with ids 1 and 2. */
  lemma IdReusedAfterDelete(first: Project, newest: Project)
    requires first.id == 1 && newest.id == 2
    ensures RemoveId([first, newest], 2) == [first]
    ensures NextId(RemoveId([first, newest], 2)) == newest.id
  {
    assert [first, newest][1..] == [newest];
  }

  /** A JavaScript number as `Math.max` sees it: finite or minus infinity. */
  datatype Extended = MinusInfinity | Finite(n: int)

  /** `Math.max(...ids)` exactly, which is minus infinity on no arguments. */
  function MaxAsWritten(ps: seq<Project>): (r: Extended)
    ensures r.MinusInfinity? <==> ps == []
    ensures r.Finite? ==> forall k :: 0 <= k < |ps| ==> ps[k].id <= r.n
  {
    if ps == [] then MinusInfinity
    else
      match MaxAsWritten(ps[1..])
      case MinusInfinity => Finite(ps[0].id)
      case Finite(m) => Finite(if ps[0].id >= m then ps[0].id else m)
  }

  /** `Math.max(...data.projects.map(p => p.id)) + 1` as the source computes it. */
  function NextIdAsWritten(ps: seq<Project>): (r: Extended)
    ensures r.MinusInfinity? <==> ps == []
    ensures r.Finite? ==> forall k :: 0 <= k < |ps| ==> ps[k].id < r.n
  {
    match MaxAsWritten(ps)
    case MinusInfinity => MinusInfinity
    case Finite(m) => Finite(m + 1)
  }

  /** On a non-empty list the source's id agrees with `NextId`. */
  lemma {:induction false} NextIdAsWrittenAgrees(ps: seq<Project>)
    requires ps != []
    ensures NextIdAsWritten(ps) == Finite(NextId(ps))
  {
    MaxAsWrittenAgrees(ps);
  }

  lemma {:induction false} MaxAsWrittenAgrees(ps: seq<Project>)
    requires ps != []
    ensures MaxAsWritten(ps) == Finite(MaxId(ps))
  {
    if |ps| > 1 {
      MaxAsWrittenAgrees(ps[1..]);
    }
  }

  /** The first project added to an empty list gets no integer id from the
      source: `Math.max()` is minus infinity, and so is the sum, which the
      JSON file stores as `null`. The intended id is 1. */
  lemma FirstProjectAsWritten()
    ensures NextIdAsWritten([]) == MinusInfinity
    ensures NextId([]) == 1
  {
  }
}
