/** Resolution of named declarations into a complete type tree. The declarations that
    the server answers with are a map; asking it is not modelled. */
module TypeBuilder {
  import opened Bytes
  import opened Outcomes
  import opened AdsTypes
  import opened Serializer
  import opened SerializerTheorems

  type Declarations = map<GoString, AdsDataType>

  datatype BuildError = UnknownType(name: GoString)

  type Built = Outcome<AdsDataType, BuildError>

  /** The type names that building a declaration asks for. */
  predicate RefersTo(d: AdsDataType, name: GoString) {
    if |d.subItems| > 0 then exists i :: 0 <= i < |d.subItems| && d.subItems[i].typeName == name
    else d.arrayDim > 0 && d.typeName == name
  }

  /** No declaration leads back to itself: each only refers to lower-ranked ones. */
  ghost predicate Acyclic(env: Declarations, rank: map<GoString, nat>) {
    && env.Keys <= rank.Keys
    && forall n, r :: n in env && r in env && RefersTo(env[n], r) ==> rank[r] < rank[n]
  }

  function Below(env: Declarations, rank: map<GoString, nat>, name: GoString): nat
    requires env.Keys <= rank.Keys
  {
    if name in env then rank[name] + 1 else 0
  }

  ghost predicate FieldsBelow(env: Declarations, rank: map<GoString, nat>, subs: seq<AdsDataType>, bound: nat)
    requires env.Keys <= rank.Keys
  {
    forall i :: 0 <= i < |subs| ==> Below(env, rank, subs[i].typeName) < bound
  }

  function Rename(t: AdsDataType, field: AdsDataType): AdsDataType {
    t.(name := field.name, offset := field.offset, comment := field.comment)
  }

  /** BuildDataType where no declaration leads back to itself. */
  function Build(env: Declarations, ghost rank: map<GoString, nat>, name: GoString): Built
    requires Acyclic(env, rank)
    decreases Below(env, rank, name), 1
  {
    if name !in env then Err(UnknownType(name))
    else
      var d := env[name];
      if |d.subItems| > 0 then
        var subs :- BuildFields(env, rank, d.subItems, Below(env, rank, name));
        Ok(d.(subItems := subs))
      else if d.arrayDim > 0 then
        var element :- Build(env, rank, d.typeName);
        Ok(element.(arrayInfo := d.arrayInfo + element.arrayInfo))
      else Ok(d.(typeName := d.name, name := []))
  }

  function BuildFields(env: Declarations, ghost rank: map<GoString, nat>, subs: seq<AdsDataType>, ghost bound: nat)
    : (r: Outcome<seq<AdsDataType>, BuildError>)
    requires Acyclic(env, rank)
    requires FieldsBelow(env, rank, subs, bound)
    ensures r.Ok? ==> |r.value| == |subs|
    decreases bound, 0, |subs|
  {
    if subs == [] then Ok([])
    else
      var first :- Build(env, rank, subs[0].typeName);
      var rest :- BuildFields(env, rank, subs[1..], bound);
      Ok([Rename(first, subs[0])] + rest)
  }

  // --------------------------------------------------------- Layout is kept

  /** A struct lists fields of declared types that lie inside it and share no byte;
      an array takes its length times its element; a leaf takes its width. */
  ghost predicate Consistent(env: Declarations, d: AdsDataType) {
    if |d.subItems| > 0 then
      && d.arrayInfo == [] && d.size > 0 && d.code == ADST_BIGTYPE
      && (forall i :: 0 <= i < |d.subItems| ==> FieldConsistent(env, d, d.subItems[i]))
      && (forall i, j :: 0 <= i < j < |d.subItems| ==> Apart(d.subItems[i], d.subItems[j]))
      && DistinctNames(d.subItems)
    else if d.arrayDim > 0 then
      && |d.arrayInfo| == d.arrayDim
      && d.typeName in env
      && d.size == Product(d.arrayInfo) * env[d.typeName].size
    else d.arrayInfo == [] && d.size == ElementWidth(d)
  }

  ghost predicate FieldConsistent(env: Declarations, d: AdsDataType, f: AdsDataType) {
    && f.typeName in env
    && f.size == env[f.typeName].size
    && f.offset + f.size <= d.size
  }

  /** Declared ranges that share no byte. */
  predicate Apart(a: AdsDataType, b: AdsDataType) {
    a.size == 0 || b.size == 0 || a.offset + a.size <= b.offset || b.offset + b.size <= a.offset
  }

  ghost predicate ConsistentEnv(env: Declarations, rank: map<GoString, nat>) {
    Acyclic(env, rank) && forall n :: n in env ==> Consistent(env, env[n])
  }

  /** What a resolved type occupies: its elements times their size. */
  function TotalSize(t: AdsDataType): nat {
    Product(t.arrayInfo) * t.size
  }

  /** The tree has the layout that the declaration of `name` prescribes, at the root
      and, field by field, all the way down. */
  ghost predicate LaidOutAs(env: Declarations, rank: map<GoString, nat>, name: GoString, t: AdsDataType)
    requires ConsistentEnv(env, rank) && name in env
    decreases rank[name]
  {
    var d := env[name];
    && TotalSize(t) == d.size && ByteSize(t) == d.size
    && if |d.subItems| > 0 then
         && |t.subItems| == |d.subItems| && t.arrayInfo == []
         && forall i :: 0 <= i < |d.subItems| ==>
              var (f, g) := (d.subItems[i], t.subItems[i]);
              && FieldConsistent(env, d, f)
              && g.name == f.name && g.offset == f.offset && TotalSize(g) == f.size
              && LaidOutAs(env, rank, f.typeName, g)
       else if d.arrayDim > 0 then
         && d.arrayInfo <= t.arrayInfo
         && LaidOutAs(env, rank, d.typeName, t.(arrayInfo := t.arrayInfo[|d.arrayInfo|..]))
       else t.subItems == [] && t.arrayInfo == [] && t.size == d.size
  }

  lemma {:induction false} ProductOfConcat(a: seq<ArrayInfo>, b: seq<ArrayInfo>)
    ensures Product(a + b) == Product(a) * Product(b)
  {
    if a == [] {
      assert a + b == b;
    } else {
      assert (a + b)[1..] == a[1..] + b;
      ProductOfConcat(a[1..], b);
      MulAssoc(a[0].length, Product(a[1..]), Product(b));
    }
  }

  /** An element that is stored at its declared size. */
  predicate SizedElement(t: AdsDataType) {
    ElementWidth(t) == t.size
  }

  lemma ArrayOfSized(t: AdsDataType)
    requires SizedElement(t) && (|t.subItems| > 0 ==> t.size > 0)
    ensures ByteSize(t) == TotalSize(t)
  {
  }

  ghost predicate Resolves(env: Declarations, rank: map<GoString, nat>, name: GoString)
    requires ConsistentEnv(env, rank) && name in env
  {
    && Build(env, rank, name).Ok?
    && var t := Build(env, rank, name).value;
       LaidOutAs(env, rank, name, t) && SizedElement(t) && (|t.subItems| > 0 ==> t.size > 0)
  }

  /** `g` is the built form of field `f`. */
  ghost predicate FieldBuilt(env: Declarations, rank: map<GoString, nat>, f: AdsDataType, g: AdsDataType)
    requires ConsistentEnv(env, rank)
  {
    && f.typeName in env
    && Build(env, rank, f.typeName).Ok?
    && g == Rename(Build(env, rank, f.typeName).value, f)
    && TotalSize(g) == f.size
    && LaidOutAs(env, rank, f.typeName, g)
  }

  /** Resolution succeeds on every declared type and keeps its layout. */
  lemma {:induction false} BuildKeepsLayout(env: Declarations, rank: map<GoString, nat>, name: GoString)
    requires ConsistentEnv(env, rank) && name in env
    ensures Build(env, rank, name).Ok?
    ensures var t := Build(env, rank, name).value;
      LaidOutAs(env, rank, name, t) && SizedElement(t) && (|t.subItems| > 0 ==> t.size > 0)
    decreases rank[name]
  {
    var d := env[name];
    if |d.subItems| > 0 {
      BuildFieldsKeepsLayout(env, rank, name);
      assert d.subItems[0..] == d.subItems;
      StructKeepsLayout(env, rank, name);
    } else if d.arrayDim > 0 {
      BuildKeepsLayout(env, rank, d.typeName);
      ArrayKeepsLayout(env, rank, name);
    }
  }

  lemma StructKeepsLayout(env: Declarations, rank: map<GoString, nat>, name: GoString)
    requires ConsistentEnv(env, rank) && name in env && |env[name].subItems| > 0
    requires var subs := BuildFields(env, rank, env[name].subItems, Below(env, rank, name));
      subs.Ok? && forall i :: 0 <= i < |subs.value| ==> FieldBuilt(env, rank, env[name].subItems[i], subs.value[i])
    ensures Resolves(env, rank, name)
  {
    var d := env[name];
    var subs := BuildFields(env, rank, d.subItems, Below(env, rank, name)).value;
    var t := d.(subItems := subs);
    assert Build(env, rank, name) == Ok(t);
    assert t.arrayInfo == [] && ByteSize(t) == t.size == d.size;
    forall i | 0 <= i < |d.subItems|
      ensures FieldConsistent(env, d, d.subItems[i])
      ensures subs[i].name == d.subItems[i].name && subs[i].offset == d.subItems[i].offset
      ensures TotalSize(subs[i]) == d.subItems[i].size && LaidOutAs(env, rank, d.subItems[i].typeName, subs[i])
    {
      assert FieldBuilt(env, rank, d.subItems[i], subs[i]);
    }
  }

  lemma ArrayKeepsLayout(env: Declarations, rank: map<GoString, nat>, name: GoString)
    requires ConsistentEnv(env, rank) && name in env && env[name].subItems == [] && env[name].arrayDim > 0
    requires Resolves(env, rank, env[name].typeName)
    ensures Resolves(env, rank, name)
  {
    var d := env[name];
    var e := Build(env, rank, d.typeName).value;
    var t := e.(arrayInfo := d.arrayInfo + e.arrayInfo);
    assert Build(env, rank, name) == Ok(t);
    ProductOfConcat(d.arrayInfo, e.arrayInfo);
    MulAssoc(Product(d.arrayInfo), Product(e.arrayInfo), e.size);
    assert t.(arrayInfo := t.arrayInfo[|d.arrayInfo|..]) == e;
    assert ElementWidth(t) == ElementWidth(e);
    ArrayOfSized(t);
  }

  /** The fields of a declared struct from the k-th on, built. */
  function FieldsFrom(env: Declarations, ghost rank: map<GoString, nat>, name: GoString, k: nat)
    : (r: Outcome<seq<AdsDataType>, BuildError>)
    requires Acyclic(env, rank) && name in env && |env[name].subItems| > 0 && k <= |env[name].subItems|
    ensures r.Ok? ==> |r.value| == |env[name].subItems| - k
  {
    var d := env[name];
    assert forall i :: 0 <= i < |d.subItems[k..]| ==> RefersTo(d, d.subItems[k..][i].typeName);
    BuildFields(env, rank, d.subItems[k..], Below(env, rank, name))
  }

  lemma FieldsFromStep(env: Declarations, rank: map<GoString, nat>, name: GoString, k: nat)
    requires Acyclic(env, rank) && name in env && k < |env[name].subItems|
    ensures var f := env[name].subItems[k];
      var (first, rest) := (Build(env, rank, f.typeName), FieldsFrom(env, rank, name, k + 1));
      first.Ok? && rest.Ok? ==> FieldsFrom(env, rank, name, k) == Ok([Rename(first.value, f)] + rest.value)
  {
    var d := env[name];
    assert d.subItems[k..][0] == d.subItems[k] && d.subItems[k..][1..] == d.subItems[k + 1..];
  }

  /** The fields are the renamed results, one for one, when every one resolves. */
  lemma {:induction false} FieldsFromAll(env: Declarations, rank: map<GoString, nat>, name: GoString, k: nat)
    requires Acyclic(env, rank) && name in env && |env[name].subItems| > 0 && k <= |env[name].subItems|
    requires forall i :: k <= i < |env[name].subItems| ==> Build(env, rank, env[name].subItems[i].typeName).Ok?
    ensures var (fs, r) := (env[name].subItems, FieldsFrom(env, rank, name, k));
      r.Ok? && forall i :: k <= i < |fs| ==> r.value[i - k] == Rename(Build(env, rank, fs[i].typeName).value, fs[i])
    decreases |env[name].subItems| - k
  {
    if k < |env[name].subItems| {
      FieldsFromAll(env, rank, name, k + 1);
      FieldsFromStep(env, rank, name, k);
    }
  }

  lemma {:induction false} BuildFieldsKeepsLayout(env: Declarations, rank: map<GoString, nat>, name: GoString)
    requires ConsistentEnv(env, rank) && name in env && |env[name].subItems| > 0
    ensures var r := FieldsFrom(env, rank, name, 0);
      r.Ok? && forall i :: 0 <= i < |r.value| ==> FieldBuilt(env, rank, env[name].subItems[i], r.value[i])
    decreases rank[name], 0
  {
    var fs := env[name].subItems;
    forall i | 0 <= i < |fs|
      ensures Build(env, rank, fs[i].typeName).Ok?
      ensures FieldBuilt(env, rank, fs[i], Rename(Build(env, rank, fs[i].typeName).value, fs[i]))
    {
      assert FieldConsistent(env, env[name], fs[i]) && RefersTo(env[name], fs[i].typeName);
      BuildKeepsLayout(env, rank, fs[i].typeName);
      FieldKeepsLayout(env, rank, fs[i]);
    }
    FieldsFromAll(env, rank, name, 0);
  }

  lemma FieldKeepsLayout(env: Declarations, rank: map<GoString, nat>, f: AdsDataType)
    requires ConsistentEnv(env, rank) && f.typeName in env && Resolves(env, rank, f.typeName)
    requires f.size == env[f.typeName].size
    ensures FieldBuilt(env, rank, f, Rename(Build(env, rank, f.typeName).value, f))
  {
    RenameKeepsLayout(env, rank, f.typeName, Build(env, rank, f.typeName).value, f);
  }

  /** Name, offset and comment of a node are no part of its own layout. */
  lemma {:induction false} RenameKeepsLayout(env: Declarations, rank: map<GoString, nat>, name: GoString,
                                             t: AdsDataType, f: AdsDataType)
    requires ConsistentEnv(env, rank) && name in env && LaidOutAs(env, rank, name, t)
    ensures LaidOutAs(env, rank, name, Rename(t, f))
    ensures ByteSize(Rename(t, f)) == ByteSize(t) && TotalSize(Rename(t, f)) == TotalSize(t)
    decreases rank[name]
  {
    var d := env[name];
    assert ElementWidth(Rename(t, f)) == ElementWidth(t);
    if |d.subItems| == 0 && d.arrayDim > 0 {
      var inner := t.(arrayInfo := t.arrayInfo[|d.arrayInfo|..]);
      RenameKeepsLayout(env, rank, d.typeName, inner, f);
      assert Rename(inner, f) == Rename(t, f).(arrayInfo := Rename(t, f).arrayInfo[|d.arrayInfo|..]);
    }
  }

  /** Whatever encodes on a resolved type takes exactly the declared bytes. */
  lemma EncodingHasDeclaredSize(go: GoConversions, env: Declarations, rank: map<GoString, nat>, name: GoString,
                                v: Value)
    requires ConsistentEnv(env, rank) && name in env
    ensures Build(env, rank, name).Ok?
    ensures var r := Serialize(go, v, Build(env, rank, name).value, false);
      r.Ok? ==> |r.value| == env[name].size
  {
    BuildKeepsLayout(env, rank, name);
    var t := Build(env, rank, name).value;
    if Serialize(go, v, t, false).Ok? {
      SerializedLength(go, v, t);
    }
  }

  // ------------------------------------------ Resolved types round-trip

  /** No array of structs and no WSTRING, the two that the codec does not invert. */
  ghost predicate Symmetric(env: Declarations) {
    forall n :: n in env ==>
      && env[n].code != ADST_WSTRING
      && (|env[n].subItems| == 0 && env[n].arrayDim > 0 && env[n].typeName in env ==>
            env[env[n].typeName].subItems == [])
  }

  lemma {:induction false} BuiltIsWellFormed(env: Declarations, rank: map<GoString, nat>, name: GoString)
    requires ConsistentEnv(env, rank) && Symmetric(env) && name in env
    ensures Build(env, rank, name).Ok? && WellFormed(Build(env, rank, name).value)
    ensures env[name].subItems == [] ==> Build(env, rank, name).value.subItems == []
    decreases rank[name]
  {
    var d := env[name];
    BuildKeepsLayout(env, rank, name);
    var t := Build(env, rank, name).value;
    if |d.subItems| > 0 {
      BuildFieldsKeepsLayout(env, rank, name);
      assert d.subItems[0..] == d.subItems;
      forall i | 0 <= i < |t.subItems| ensures WellFormed(t.subItems[i]) {
        var f := d.subItems[i];
        assert FieldConsistent(env, d, f) && RefersTo(d, f.typeName);
        BuiltIsWellFormed(env, rank, f.typeName);
        assert FieldBuilt(env, rank, f, t.subItems[i]);
        RenameIsWellFormed(Build(env, rank, f.typeName).value, f);
      }
      forall i | 0 <= i < |t.subItems| ensures SameRange(d.subItems[i], t.subItems[i]) {
        assert FieldBuilt(env, rank, d.subItems[i], t.subItems[i]);
      }
      BuiltFieldsApart(d.subItems, t.subItems);
    } else if d.arrayDim > 0 {
      BuiltIsWellFormed(env, rank, d.typeName);
    }
  }

  /** A built field keeps the name and the byte range of its declaration. */
  predicate SameRange(f: AdsDataType, g: AdsDataType) {
    g.name == f.name && g.offset == f.offset && ByteSize(g) == f.size
  }

  lemma BuiltFieldsApart(declared: seq<AdsDataType>, built: seq<AdsDataType>)
    requires |declared| == |built| && DistinctNames(declared)
    requires forall i :: 0 <= i < |declared| ==> SameRange(declared[i], built[i])
    requires forall i, j :: 0 <= i < j < |declared| ==> Apart(declared[i], declared[j])
    ensures DisjointFields(built) && DistinctNames(built)
  {
    forall i, j | 0 <= i < j < |built| ensures Disjoint(built[i], built[j]) && built[i].name != built[j].name {
      assert SameRange(declared[i], built[i]) && SameRange(declared[j], built[j]);
      assert Apart(declared[i], declared[j]);
    }
  }

  lemma RenameIsWellFormed(t: AdsDataType, f: AdsDataType)
    requires WellFormed(t)
    ensures WellFormed(Rename(t, f))
  {
    assert ElementWidth(Rename(t, f)) == ElementWidth(t);
  }

  /** Values written to a declared type are read back from its image. */
  lemma ResolvedRoundTrip(go: GoConversions, env: Declarations, rank: map<GoString, nat>, name: GoString,
                          v: Value, data: seq<byte>)
    requires ConsistentEnv(env, rank) && Symmetric(env) && name in env
    ensures Build(env, rank, name).Ok?
    ensures var t := Build(env, rank, name).value;
      var e := Serialize(go, v, t, false);
      e.Ok? && Fits(v, t) && HoldsAt(data, t.offset, e.value) ==>
        Deserialize(data, t, false) == Ok(Canonical(go, v, t))
  {
    BuiltIsWellFormed(env, rank, name);
    var t := Build(env, rank, name).value;
    var e := Serialize(go, v, t, false);
    if e.Ok? && Fits(v, t) && HoldsAt(data, t.offset, e.value) {
      RoundTrip(go, v, t, data);
    }
  }
}
