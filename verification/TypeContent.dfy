/** What a resolved type tree takes over from the declarations, and when there is one. */
module TypeContent {
  import opened Bytes
  import opened Outcomes
  import opened AdsTypes
  import opened TypeBuilder

  /** Code, type name, size and dimensions of a node and, down to the leaves, of its
      fields are those declared; a field has the name, offset and comment of the line
      that declares it. An array is what it is an array of, with more dimensions. */
  ghost predicate Carries(env: Declarations, rank: map<GoString, nat>, name: GoString, t: AdsDataType)
    requires Acyclic(env, rank) && name in env
    decreases rank[name]
  {
    var d := env[name];
    if |d.subItems| > 0 then
      && SameNode(t, d) && t.typeName == d.typeName && |t.subItems| == |d.subItems|
      && forall i :: 0 <= i < |d.subItems| ==>
           var (f, g) := (d.subItems[i], t.subItems[i]);
           && RefersTo(d, f.typeName) && f.typeName in env
           && g.name == f.name && g.offset == f.offset && g.comment == f.comment
           && Carries(env, rank, f.typeName, g)
    else if d.arrayDim > 0 then
      && RefersTo(d, d.typeName) && d.typeName in env && d.arrayInfo <= t.arrayInfo
      && Carries(env, rank, d.typeName, t.(arrayInfo := t.arrayInfo[|d.arrayInfo|..]))
    else SameNode(t, d) && t.typeName == d.name && t.subItems == []
  }

  predicate SameNode(t: AdsDataType, d: AdsDataType) {
    t.code == d.code && t.size == d.size && t.arrayDim == d.arrayDim && t.arrayInfo == d.arrayInfo
  }

  /** The root keeps the offset and the comment of the declaration that it comes from, in
      an array that of the element; its name too, but that of a leaf becomes its type name. */
  ghost predicate RootCarries(env: Declarations, rank: map<GoString, nat>, name: GoString, t: AdsDataType)
    requires Acyclic(env, rank) && name in env
    decreases rank[name]
  {
    var d := env[name];
    if |d.subItems| > 0 then t.name == d.name && t.offset == d.offset && t.comment == d.comment
    else if d.arrayDim > 0 then
      RefersTo(d, d.typeName) && d.typeName in env && RootCarries(env, rank, d.typeName, t)
    else t.name == [] && t.offset == d.offset && t.comment == d.comment
  }

  /** The name and all that it leads to are declared. */
  ghost predicate AllDeclared(env: Declarations, rank: map<GoString, nat>, name: GoString)
    requires Acyclic(env, rank)
    decreases Below(env, rank, name)
  {
    && name in env
    && var d := env[name];
      if |d.subItems| > 0 then
        forall i :: 0 <= i < |d.subItems| ==>
          RefersTo(d, d.subItems[i].typeName) && AllDeclared(env, rank, d.subItems[i].typeName)
      else d.arrayDim > 0 ==> RefersTo(d, d.typeName) && AllDeclared(env, rank, d.typeName)
  }

  /** Where no declaration leads back to itself, resolution succeeds exactly when all
      names are declared, and fails with one that is not; the tree carries the content of
      the declarations. */
  lemma {:induction false} BuildCarries(env: Declarations, rank: map<GoString, nat>, name: GoString)
    requires Acyclic(env, rank)
    ensures var r := Build(env, rank, name);
      && (r.Ok? <==> AllDeclared(env, rank, name))
      && (!r.Ok? ==> r.Err? && r.error.name !in env)
      && (r.Ok? ==> Carries(env, rank, name, r.value) && RootCarries(env, rank, name, r.value))
    decreases Below(env, rank, name), 1
  {
    if name in env {
      var d := env[name];
      if |d.subItems| > 0 {
        forall i | 0 <= i < |d.subItems| ensures RefersTo(d, d.subItems[i].typeName) {
        }
        FieldsCarry(env, rank, d.subItems, Below(env, rank, name));
      } else if d.arrayDim > 0 {
        assert RefersTo(d, d.typeName);
        BuildCarries(env, rank, d.typeName);
        if Build(env, rank, d.typeName).Ok? {
          ArrayCarries(env, rank, name, Build(env, rank, d.typeName).value);
        }
      }
    }
  }

  lemma ArrayCarries(env: Declarations, rank: map<GoString, nat>, name: GoString, e: AdsDataType)
    requires Acyclic(env, rank) && name in env && env[name].subItems == [] && env[name].arrayDim > 0
    requires env[name].typeName in env && RefersTo(env[name], env[name].typeName)
    requires Carries(env, rank, env[name].typeName, e) && RootCarries(env, rank, env[name].typeName, e)
    ensures var t := e.(arrayInfo := env[name].arrayInfo + e.arrayInfo);
      Carries(env, rank, name, t) && RootCarries(env, rank, name, t)
  {
    var d := env[name];
    var t := e.(arrayInfo := d.arrayInfo + e.arrayInfo);
    assert t.(arrayInfo := t.arrayInfo[|d.arrayInfo|..]) == e;
    RootIgnoresDimensions(env, rank, d.typeName, e, t.arrayInfo);
  }

  lemma {:induction false} RootIgnoresDimensions(env: Declarations, rank: map<GoString, nat>, name: GoString,
                                                 t: AdsDataType, info: seq<ArrayInfo>)
    requires Acyclic(env, rank) && name in env && RootCarries(env, rank, name, t)
    ensures RootCarries(env, rank, name, t.(arrayInfo := info))
    decreases rank[name]
  {
    var d := env[name];
    if |d.subItems| == 0 && d.arrayDim > 0 {
      RootIgnoresDimensions(env, rank, d.typeName, t, info);
    }
  }

  /** `g` is field `f` with the content of its type. */
  ghost predicate FieldOf(env: Declarations, rank: map<GoString, nat>, f: AdsDataType, g: AdsDataType)
    requires Acyclic(env, rank)
  {
    && f.typeName in env && g.name == f.name && g.offset == f.offset && g.comment == f.comment
    && Carries(env, rank, f.typeName, g)
  }

  lemma {:induction false} FieldsCarry(env: Declarations, rank: map<GoString, nat>, subs: seq<AdsDataType>, bound: nat)
    requires Acyclic(env, rank) && FieldsBelow(env, rank, subs, bound)
    ensures var r := BuildFields(env, rank, subs, bound);
      && (r.Ok? <==> forall i :: 0 <= i < |subs| ==> AllDeclared(env, rank, subs[i].typeName))
      && (!r.Ok? ==> r.Err? && r.error.name !in env)
      && (r.Ok? ==> forall i :: 0 <= i < |subs| ==> FieldOf(env, rank, subs[i], r.value[i]))
    decreases bound, 0, |subs|
  {
    if subs != [] {
      var first := Build(env, rank, subs[0].typeName);
      BuildCarries(env, rank, subs[0].typeName);
      FieldsCarry(env, rank, subs[1..], bound);
      if first.Ok? {
        RenameCarries(env, rank, subs[0].typeName, first.value, subs[0]);
        FieldsCons(env, rank, subs, bound);
      }
    }
  }

  lemma FieldsCons(env: Declarations, rank: map<GoString, nat>, subs: seq<AdsDataType>, bound: nat)
    requires Acyclic(env, rank) && FieldsBelow(env, rank, subs, bound) && subs != []
    requires Build(env, rank, subs[0].typeName).Ok? && AllDeclared(env, rank, subs[0].typeName)
    requires FieldOf(env, rank, subs[0], Rename(Build(env, rank, subs[0].typeName).value, subs[0]))
    requires var r := BuildFields(env, rank, subs[1..], bound);
      && (r.Ok? <==> forall i :: 0 <= i < |subs[1..]| ==> AllDeclared(env, rank, subs[1..][i].typeName))
      && (r.Ok? ==> forall i :: 0 <= i < |subs[1..]| ==> FieldOf(env, rank, subs[1..][i], r.value[i]))
    ensures var r := BuildFields(env, rank, subs, bound);
      && (r.Ok? <==> forall i :: 0 <= i < |subs| ==> AllDeclared(env, rank, subs[i].typeName))
      && (r.Ok? ==> forall i :: 0 <= i < |subs| ==> FieldOf(env, rank, subs[i], r.value[i]))
  {
    var r, rest := BuildFields(env, rank, subs, bound), BuildFields(env, rank, subs[1..], bound);
    assert forall i :: 0 <= i < |subs[1..]| ==> subs[1..][i] == subs[i + 1];
    if rest.Ok? {
      forall i | 0 <= i < |subs|
        ensures AllDeclared(env, rank, subs[i].typeName) && FieldOf(env, rank, subs[i], r.value[i])
      {
        if i > 0 {
          assert subs[i] == subs[1..][i - 1] && r.value[i] == rest.value[i - 1];
        }
      }
    } else {
      var i :| 0 <= i < |subs[1..]| && !AllDeclared(env, rank, subs[1..][i].typeName);
      assert !AllDeclared(env, rank, subs[i + 1].typeName);
    }
  }

  /** Name, offset and comment of a node are not what it takes from its type. */
  lemma {:induction false} RenameCarries(env: Declarations, rank: map<GoString, nat>, name: GoString,
                                         t: AdsDataType, f: AdsDataType)
    requires Acyclic(env, rank) && name in env && Carries(env, rank, name, t)
    ensures var g := Rename(t, f);
      Carries(env, rank, name, g) && g.name == f.name && g.offset == f.offset && g.comment == f.comment
    decreases rank[name]
  {
    var d := env[name];
    if |d.subItems| == 0 && d.arrayDim > 0 {
      var inner := t.(arrayInfo := t.arrayInfo[|d.arrayInfo|..]);
      RenameCarries(env, rank, d.typeName, inner, f);
      assert Rename(inner, f) == Rename(t, f).(arrayInfo := Rename(t, f).arrayInfo[|d.arrayInfo|..]);
    }
  }
}
