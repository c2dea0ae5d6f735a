/** When the resolution of named declarations ends, whatever they refer to. */
module Resolution {
  import opened Bytes
  import opened Outcomes
  import opened AdsTypes
  import opened TypeBuilder

  type BuiltFields = Outcome<seq<AdsDataType>, BuildError>

  /** BuildDataType with no more than `depth` calls inside each other; None when these do
      not suffice. */
  function Resolve(env: Declarations, name: GoString, depth: nat): Option<Built>
    decreases depth, 0, 0
  {
    if depth == 0 then None
    else if name !in env then Some(Err(UnknownType(name)))
    else
      var d := env[name];
      if |d.subItems| > 0 then
        match ResolveFields(env, d.subItems, depth - 1)
        case None => None
        case Some(r) => Some(StructOf(d, r))
      else if d.arrayDim > 0 then
        match Resolve(env, d.typeName, depth - 1)
        case None => None
        case Some(r) => Some(ArrayOf(d, r))
      else Some(Ok(d.(typeName := d.name, name := [])))
  }

  function ResolveFields(env: Declarations, subs: seq<AdsDataType>, depth: nat): Option<BuiltFields>
    decreases depth, 1, |subs|
  {
    if subs == [] then Some(Ok([]))
    else
      match Resolve(env, subs[0].typeName, depth)
      case None => None
      case Some(first) =>
        if !first.Ok? then Some(first.PropagateFailure())
        else
          match ResolveFields(env, subs[1..], depth)
          case None => None
          case Some(rest) => Some(Joined([Rename(first.value, subs[0])], rest))
  }

  function StructOf(d: AdsDataType, r: BuiltFields): Built {
    if r.Ok? then Ok(d.(subItems := r.value)) else r.PropagateFailure()
  }

  function ArrayOf(d: AdsDataType, r: Built): Built {
    if r.Ok? then Ok(r.value.(arrayInfo := d.arrayInfo + r.value.arrayInfo)) else r
  }

  /** The fields built so far, and then what the remaining ones give. */
  function Joined(done: seq<AdsDataType>, r: BuiltFields): BuiltFields {
    if r.Ok? then Ok(done + r.value) else r
  }

  lemma {:induction false} MoreDepth(env: Declarations, name: GoString, depth: nat, more: nat)
    requires depth <= more && Resolve(env, name, depth).Some?
    ensures Resolve(env, name, more) == Resolve(env, name, depth)
    decreases depth, 0, 0
  {
    if name in env {
      var d := env[name];
      if |d.subItems| > 0 {
        MoreDepthFields(env, d.subItems, depth - 1, more - 1);
      } else if d.arrayDim > 0 {
        MoreDepth(env, d.typeName, depth - 1, more - 1);
      }
    }
  }

  lemma {:induction false} MoreDepthFields(env: Declarations, subs: seq<AdsDataType>, depth: nat, more: nat)
    requires depth <= more && ResolveFields(env, subs, depth).Some?
    ensures ResolveFields(env, subs, more) == ResolveFields(env, subs, depth)
    decreases depth, 1, |subs|
  {
    if subs != [] {
      MoreDepth(env, subs[0].typeName, depth, more);
      if Resolve(env, subs[0].typeName, depth).value.Ok? {
        MoreDepthFields(env, subs[1..], depth, more);
      }
    }
  }

  // ------------------------------------------------------------- The method

  /** buildDataTypeRecursive, appending the built fields in a loop, whenever it ends. */
  method BuildDataType(env: Declarations, ghost depth: nat, name: GoString) returns (r: Built)
    requires Resolve(env, name, depth).Some?
    ensures Resolve(env, name, depth) == Some(r)
    decreases depth
  {
    if name !in env {
      return Err(UnknownType(name));
    }
    var d := env[name];
    if |d.subItems| > 0 {
      ghost var inner: nat := depth - 1;
      ghost var whole := ResolveFields(env, d.subItems, inner).value;
      ghost var todo := whole;
      var subItems: seq<AdsDataType> := [];
      var i := 0;
      assert d.subItems[0..] == d.subItems;
      JoinedNone(whole);
      while i < |d.subItems|
        invariant 0 <= i <= |d.subItems|
        invariant ResolveFields(env, d.subItems[i..], inner) == Some(todo) && whole == Joined(subItems, todo)
      {
        assert d.subItems[i..][0] == d.subItems[i] && d.subItems[i..][1..] == d.subItems[i + 1..];
        var built := BuildDataType(env, inner, d.subItems[i].typeName);
        if built.IsFailure() {
          return built;
        }
        var field := Rename(built.value, d.subItems[i]);
        todo := ResolveFields(env, d.subItems[i + 1..], inner).value;
        JoinedStep(subItems, field, todo);
        subItems := subItems + [field];
        i := i + 1;
      }
      assert subItems + [] == subItems;
      return Ok(d.(subItems := subItems));
    }
    if d.arrayDim > 0 {
      r := BuildDataType(env, depth - 1, d.typeName);
      if r.Ok? {
        r := Ok(r.value.(arrayInfo := d.arrayInfo + r.value.arrayInfo));
      }
      return;
    }
    r := Ok(d.(typeName := d.name, name := []));
  }

  lemma JoinedNone(r: BuiltFields)
    ensures Joined([], r) == r
  {
    if r.Ok? {
      assert [] + r.value == r.value;
    }
  }

  lemma JoinedStep(done: seq<AdsDataType>, field: AdsDataType, r: BuiltFields)
    ensures Joined(done, Joined([field], r)) == Joined(done + [field], r)
  {
    if r.Ok? {
      assert done + ([field] + r.value) == (done + [field]) + r.value;
    }
  }

  /** Where no declaration leads back to itself, this is the tree of Build. */
  lemma {:induction false} ResolveIsBuild(env: Declarations, rank: map<GoString, nat>, name: GoString, depth: nat)
    requires Acyclic(env, rank) && Below(env, rank, name) < depth
    ensures Resolve(env, name, depth) == Some(Build(env, rank, name))
    decreases depth, 0, 0
  {
    if name in env {
      var d := env[name];
      if |d.subItems| > 0 {
        forall i | 0 <= i < |d.subItems| ensures Below(env, rank, d.subItems[i].typeName) < Below(env, rank, name) {
          assert RefersTo(d, d.subItems[i].typeName);
        }
        ResolveFieldsIsBuild(env, rank, d.subItems, Below(env, rank, name), depth - 1);
      } else if d.arrayDim > 0 {
        assert RefersTo(d, d.typeName);
        ResolveIsBuild(env, rank, d.typeName, depth - 1);
      }
    }
  }

  lemma {:induction false} ResolveFieldsIsBuild(env: Declarations, rank: map<GoString, nat>, subs: seq<AdsDataType>,
                                                bound: nat, depth: nat)
    requires Acyclic(env, rank) && bound <= depth
    requires FieldsBelow(env, rank, subs, bound)
    ensures ResolveFields(env, subs, depth) == Some(BuildFields(env, rank, subs, bound))
    decreases depth, 1, |subs|
  {
    if subs != [] {
      ResolveIsBuild(env, rank, subs[0].typeName, depth);
      ResolveFieldsIsBuild(env, rank, subs[1..], bound, depth);
    }
  }

  // ------------------------------------------------------- When it ends

  ghost predicate Ends(env: Declarations, name: GoString) {
    exists depth: nat :: Resolve(env, name, depth).Some?
  }

  /** Resolution of the name ends without an error. */
  ghost predicate Succeeds(env: Declarations, name: GoString) {
    exists depth: nat :: Resolve(env, name, depth).Some? && Resolve(env, name, depth).value.Ok?
  }

  /** Resolution comes to field `k`: those before it resolve. */
  ghost predicate Reaches(env: Declarations, subs: seq<AdsDataType>, k: nat) {
    k < |subs| && forall j :: 0 <= j < k ==> Succeeds(env, subs[j].typeName)
  }

  /** Resolution of `name` asks for `r`. */
  ghost predicate AsksFor(env: Declarations, name: GoString, r: GoString) {
    && name in env
    && var d := env[name];
      if |d.subItems| > 0 then exists k: nat :: Reaches(env, d.subItems, k) && d.subItems[k].typeName == r
      else d.arrayDim > 0 && d.typeName == r
  }

  /** What is asked for ends one call deeper. */
  lemma {:induction false} AskedEnds(env: Declarations, name: GoString, r: GoString, depth: nat)
    requires Resolve(env, name, depth).Some? && AsksFor(env, name, r)
    ensures depth > 0 && Resolve(env, r, depth - 1).Some?
  {
    var d := env[name];
    if |d.subItems| > 0 {
      var k: nat :| Reaches(env, d.subItems, k) && d.subItems[k].typeName == r;
      ReachedEnds(env, d.subItems, k, depth - 1);
    }
  }

  lemma {:induction false} ReachedEnds(env: Declarations, subs: seq<AdsDataType>, k: nat, depth: nat)
    requires ResolveFields(env, subs, depth).Some? && Reaches(env, subs, k)
    ensures Resolve(env, subs[k].typeName, depth).Some?
    decreases k
  {
    if k > 0 {
      SucceedsAt(env, subs[0].typeName, depth);
      forall j | 0 <= j < k - 1 ensures Succeeds(env, subs[1..][j].typeName) {
        assert subs[1..][j] == subs[j + 1];
      }
      ReachedEnds(env, subs[1..], k - 1, depth);
    }
  }

  lemma SucceedsAt(env: Declarations, name: GoString, depth: nat)
    requires Succeeds(env, name) && Resolve(env, name, depth).Some?
    ensures Resolve(env, name, depth).value.Ok?
  {
    var other: nat :| Resolve(env, name, other).Some? && Resolve(env, name, other).value.Ok?;
    if depth <= other {
      MoreDepth(env, name, depth, other);
    } else {
      MoreDepth(env, name, other, depth);
    }
  }

  lemma UnknownEnds(env: Declarations, name: GoString)
    ensures name !in env ==> Ends(env, name)
  {
    assert name !in env ==> Resolve(env, name, 1).Some?;
  }

  /** A name ends when all that it asks for does. */
  lemma {:induction false} EndsWhenAskedEnd(env: Declarations, name: GoString)
    requires forall r :: AsksFor(env, name, r) ==> Ends(env, r)
    ensures Ends(env, name)
  {
    UnknownEnds(env, name);
    if name in env {
      var d := env[name];
      if |d.subItems| > 0 {
        forall k: nat | Reaches(env, d.subItems, k) ensures Ends(env, d.subItems[k].typeName) {
          assert AsksFor(env, name, d.subItems[k].typeName);
        }
        var depth := FieldsEnd(env, d.subItems, 0);
        assert d.subItems[0..] == d.subItems;
        assert Resolve(env, name, depth + 1).Some?;
      } else if d.arrayDim > 0 {
        assert AsksFor(env, name, d.typeName);
        var depth: nat :| Resolve(env, d.typeName, depth).Some?;
        assert Resolve(env, name, depth + 1).Some?;
      } else {
        assert Resolve(env, name, 1).Some?;
      }
    }
  }

  lemma {:induction false} FieldsEnd(env: Declarations, subs: seq<AdsDataType>, k: nat) returns (depth: nat)
    requires k <= |subs| && forall j :: 0 <= j < k ==> Succeeds(env, subs[j].typeName)
    requires forall i: nat :: Reaches(env, subs, i) ==> Ends(env, subs[i].typeName)
    ensures ResolveFields(env, subs[k..], depth).Some?
    decreases |subs| - k
  {
    if k == |subs| {
      depth := 0;
    } else {
      assert Reaches(env, subs, k);
      var name, rest := subs[k].typeName, subs[k + 1..];
      assert subs[k..][0] == subs[k] && subs[k..][1..] == rest;
      depth :| Resolve(env, name, depth).Some?;
      if Resolve(env, name, depth).value.Ok? {
        var later := FieldsEnd(env, subs, k + 1);
        var both := if depth <= later then later else depth;
        MoreDepth(env, name, depth, both);
        MoreDepthFields(env, rest, later, both);
        depth := both;
      }
    }
  }

  /** Each name of the path asks for the next. */
  ghost predicate Path(env: Declarations, p: seq<GoString>) {
    forall k :: 0 <= k < |p| - 1 ==> AsksFor(env, p[k], p[k + 1])
  }

  /** A path from `name` that comes to a name twice. */
  ghost predicate LeadsIntoCycle(env: Declarations, name: GoString, p: seq<GoString>) {
    && |p| > 0 && p[0] == name && Path(env, p)
    && exists i, j :: 0 <= i < j < |p| && p[i] == p[j]
  }

  lemma {:induction false} EndsAlong(env: Declarations, p: seq<GoString>, i: nat, j: nat, depth: nat)
    requires Path(env, p) && i <= j < |p| && Resolve(env, p[i], depth).Some?
    ensures depth >= j - i && Resolve(env, p[j], depth - (j - i)).Some?
    decreases j - i
  {
    if i < j {
      AskedEnds(env, p[i], p[i + 1], depth);
      EndsAlong(env, p, i + 1, j, depth - 1);
    }
  }

  lemma {:induction false} CyclesDoNotEnd(env: Declarations, p: seq<GoString>, i: nat, j: nat, depth: nat)
    requires Path(env, p) && i < j < |p| && p[i] == p[j]
    ensures Resolve(env, p[i], depth).None?
    decreases depth
  {
    if Resolve(env, p[i], depth).Some? {
      EndsAlong(env, p, i, j, depth);
      CyclesDoNotEnd(env, p, i, j, depth - (j - i));
    }
  }

  /** From a name that does not end there are paths of any length through such names. */
  lemma {:induction false} EndlessPath(env: Declarations, name: GoString, n: nat) returns (p: seq<GoString>)
    requires !Ends(env, name)
    ensures |p| == n + 1 && p[0] == name && Path(env, p)
    ensures forall k :: 0 <= k < |p| ==> p[k] in env
    decreases n
  {
    UnknownEnds(env, name);
    if n == 0 {
      p := [name];
    } else {
      var r := EndlessAsked(env, name);
      var rest := EndlessPath(env, r, n - 1);
      p := [name] + rest;
      forall k | 0 <= k < |p| - 1 ensures AsksFor(env, p[k], p[k + 1]) {
        assert k > 0 ==> p[k] == rest[k - 1] && p[k + 1] == rest[k];
      }
    }
  }

  lemma EndlessAsked(env: Declarations, name: GoString) returns (r: GoString)
    requires !Ends(env, name)
    ensures AsksFor(env, name, r) && !Ends(env, r)
  {
    if forall r :: AsksFor(env, name, r) ==> Ends(env, r) {
      EndsWhenAskedEnd(env, name);
    }
    r :| AsksFor(env, name, r) && !Ends(env, r);
  }

  lemma {:induction false} Pigeonhole<T>(p: seq<T>, s: set<T>)
    requires |p| > |s| && forall k :: 0 <= k < |p| ==> p[k] in s
    ensures exists i, j :: 0 <= i < j < |p| && p[i] == p[j]
    decreases |s|
  {
    var last := |p| - 1;
    if k :| 0 <= k < last && p[k] == p[last] {
    } else {
      var front := p[..last];
      forall k | 0 <= k < |front| ensures front[k] in s - {p[last]} {
      }
      Pigeonhole(front, s - {p[last]});
      var i, j :| 0 <= i < j < |front| && front[i] == front[j];
      assert p[i] == p[j];
    }
  }

  /** Resolution of a name ends if and only if it leads into no cycle. What lies behind a
      field that fails is never asked for, so a cycle there does not matter. */
  lemma {:induction false} ResolutionEndsIff(env: Declarations, name: GoString)
    ensures Ends(env, name) <==> !exists p :: LeadsIntoCycle(env, name, p)
  {
    if Ends(env, name) {
      var depth: nat :| Resolve(env, name, depth).Some?;
      forall p | |p| > 0 && p[0] == name && Path(env, p) ensures !LeadsIntoCycle(env, name, p) {
        forall i, j | 0 <= i < j < |p| ensures p[i] != p[j] {
          EndsAlong(env, p, 0, i, depth);
          if p[i] == p[j] {
            CyclesDoNotEnd(env, p, i, j, depth - i);
          }
        }
      }
    } else {
      var p := EndlessPath(env, name, |env.Keys|);
      Pigeonhole(p, env.Keys);
      assert LeadsIntoCycle(env, name, p);
    }
  }
}
