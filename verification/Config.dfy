/** Configuration layering and validation: crp/config.py and crp/config_schema.py. */
module Config {

  import opened Common
  import opened Text

  /** A parsed YAML or JSON value with string keys. */
  datatype Json =
    | Null
    | Bool(b: bool)
    | Int(i: int)
    | Float(r: real)
    | Str(s: string)
    | List(items: seq<Json>)
    | Dict(entries: map<string, Json>)

  // ---------------------------------------------------------------------------------------------
  // Deep merge

  function DeepMerge(base: Json, over: Json): Json
    decreases over
  {
    if base.Dict? && over.Dict? then
      Dict(map k | k in base.entries.Keys + over.entries.Keys ::
        if k !in over.entries then base.entries[k]
        else if k in base.entries && base.entries[k].Dict? then DeepMerge(base.entries[k], over.entries[k])
        else over.entries[k])
    else if over.Null? then base
    else over
  }

  /** The loop over the override's items, in any order. */
  method MergeInto(base: Json, over: Json) returns (r: Json)
    ensures r == DeepMerge(base, over)
    decreases over
  {
    if !base.Dict? || !over.Dict? {
      return if over.Null? then base else over;
    }
    var result := base.entries;
    var remaining := over.entries.Keys;
    while remaining != {}
      invariant remaining <= over.entries.Keys
      invariant result.Keys == base.entries.Keys + (over.entries.Keys - remaining)
      invariant forall k | k in result ::
                  result[k] == if k in over.entries && k !in remaining
                               then DeepMerge(base, over).entries[k] else base.entries[k]
    {
      var k :| k in remaining;
      var v := over.entries[k];
      if k in result && result[k].Dict? {
        var merged := MergeInto(result[k], v);
        result := result[k := merged];
      } else {
        result := result[k := v];
      }
      remaining := remaining - {k};
    }
    return Dict(result);
  }

  // ---------------------------------------------------------------------------------------------
  // Reading and writing by path

  function Get(j: Json, path: seq<string>): Option<Json>
    decreases |path|
  {
    if path == [] then Some(j)
    else if j.Dict? && path[0] in j.entries then Get(j.entries[path[0]], path[1..])
    else None
  }

  /** The value to walk into; an absent one is created as an empty dict. */
  function Child(j: Json, k: string): Json
    requires j.Dict?
  {
    if k in j.entries then j.entries[k] else Dict(map[])
  }

  /** None stands for the TypeError that a non-dict on the way raises. */
  function Set(j: Json, path: seq<string>, v: Json): Option<Json>
    requires path != []
    decreases |path|
  {
    if !j.Dict? then None
    else if |path| == 1 then Some(Dict(j.entries[path[0] := v]))
    else
      var changed := Set(Child(j, path[0]), path[1..], v);
      if changed.None? then None else Some(Dict(j.entries[path[0] := changed.value]))
  }

  ghost predicate Incomparable(p: seq<string>, q: seq<string>) {
    !(p <= q) && !(q <= p)
  }

  /** What is written is read back, and so is everything below it. */
  lemma {:induction false} SetThenGet(j: Json, p: seq<string>, v: Json, q: seq<string>)
    requires p != [] && Set(j, p, v).Some?
    ensures Get(Set(j, p, v).value, p + q) == Get(v, q)
    decreases |p|
  {
    assert (p + q)[1..] == p[1..] + q;
    if |p| == 1 {
      assert p[1..] + q == q;
    } else {
      SetThenGet(Child(j, p[0]), p[1..], v, q);
    }
  }

  lemma IncomparableTails(p: seq<string>, q: seq<string>)
    requires Incomparable(p, q) && p[0] == q[0]
    ensures 1 < |p| && 1 < |q| && Incomparable(p[1..], q[1..])
  {
    assert p == [p[0]] + p[1..] && q == [q[0]] + q[1..];
  }

  /** Paths that are not above or below the written one read as before. */
  lemma {:induction false} SetElsewhere(j: Json, p: seq<string>, v: Json, q: seq<string>)
    requires p != [] && Set(j, p, v).Some? && Incomparable(p, q)
    ensures Get(Set(j, p, v).value, q) == Get(j, q)
    decreases |p|
  {
    if p[0] == q[0] {
      IncomparableTails(p, q);
      SetElsewhere(Child(j, p[0]), p[1..], v, q[1..]);
    }
  }

  /** Writing fails exactly when a proper prefix of the path holds something other than a dict. */
  lemma {:induction false} SetFailsIff(j: Json, p: seq<string>, v: Json)
    requires p != []
    ensures Set(j, p, v).None? <==>
              exists n | 0 <= n < |p| :: Get(j, p[..n]).Some? && !Get(j, p[..n]).value.Dict?
    decreases |p|
  {
    assert p[..0] == [];
    assert Get(j, p[..0]) == Some(j);
    if j.Dict? && |p| > 1 {
      var child := Child(j, p[0]);
      SetFailsIff(child, p[1..], v);
      forall n | 0 < n < |p|
        ensures Get(j, p[..n]) == if p[0] in j.entries then Get(child, p[1..][..n - 1]) else None
      {
        assert p[..n][1..] == p[1..][..n - 1];
      }
      if n :| 0 <= n < |p| - 1 && Get(child, p[1..][..n]).Some? && !Get(child, p[1..][..n]).value.Dict? {
        EmptyDictPaths(p[1..][..n]);
        assert Get(j, p[..n + 1]) == Get(child, p[1..][..n]);
      }
    }
  }

  lemma EmptyDictPaths(q: seq<string>)
    ensures Get(Dict(map[]), q) == if q == [] then Some(Dict(map[])) else None
  {
  }

  lemma SetBelow(j: Json, p: seq<string>, v: Json)
    requires |p| > 1 && Set(j, p, v).Some?
    ensures j.Dict? && Set(Child(j, p[0]), p[1..], v).Some?
    ensures Set(j, p, v) == Some(Dict(j.entries[p[0] := Set(Child(j, p[0]), p[1..], v).value]))
  {
  }

  lemma SetAboveSame(j: Json, k: string, c: Json, q: seq<string>, w: Json)
    requires j.Dict? && |q| > 1 && q[0] == k && Set(c, q[1..], w).Some?
    ensures Set(Dict(j.entries[k := c]), q, w) == Some(Dict(j.entries[k := Set(c, q[1..], w).value]))
  {
    assert j.entries[k := c][k := Set(c, q[1..], w).value] == j.entries[k := Set(c, q[1..], w).value];
  }

  /** What a write puts under the first key of its path. */
  function Written(child: Json, p: seq<string>, v: Json): Option<Json>
    requires p != []
  {
    if |p| == 1 then Some(v) else Set(child, p[1..], v)
  }

  lemma SetIsWritten(j: Json, p: seq<string>, v: Json)
    requires p != [] && j.Dict?
    ensures var c := Written(Child(j, p[0]), p, v);
            Set(j, p, v) == if c.None? then None else Some(Dict(j.entries[p[0] := c.value]))
  {
  }

  lemma SetCommutesApart(j: Json, p: seq<string>, v: Json, q: seq<string>, w: Json)
    requires p != [] && q != [] && p[0] != q[0]
    requires Set(j, p, v).Some? && Set(j, q, w).Some?
    ensures Set(Set(j, p, v).value, q, w).Some?
    ensures Set(Set(j, p, v).value, q, w) == Set(Set(j, q, w).value, p, v)
  {
    assert j.Dict?;
    var c, d := Written(Child(j, p[0]), p, v), Written(Child(j, q[0]), q, w);
    SetIsWritten(j, p, v);
    SetIsWritten(j, q, w);
    hide Set, Written;
    var a, b := j.entries[p[0] := c.value], j.entries[q[0] := d.value];
    assert Child(Dict(a), q[0]) == Child(j, q[0]) && Child(Dict(b), p[0]) == Child(j, p[0]);
    SetIsWritten(Dict(a), q, w);
    SetIsWritten(Dict(b), p, v);
    assert a[q[0] := d.value] == b[p[0] := c.value];
  }

  /** Writes at incomparable paths can be made in either order. */
  lemma {:induction false} SetCommutes(j: Json, p: seq<string>, v: Json, q: seq<string>, w: Json)
    requires p != [] && q != [] && Incomparable(p, q)
    requires Set(j, p, v).Some? && Set(j, q, w).Some?
    ensures Set(Set(j, p, v).value, q, w).Some?
    ensures Set(Set(j, p, v).value, q, w) == Set(Set(j, q, w).value, p, v)
    decreases |p|
  {
    if p[0] == q[0] {
      IncomparableTails(p, q);
      SetBelow(j, p, v);
      SetBelow(j, q, w);
      hide Set;
      var child := Child(j, p[0]);
      SetCommutes(child, p[1..], v, q[1..], w);
      SetAboveSame(j, p[0], Set(child, p[1..], v).value, q, w);
      SetAboveSame(j, q[0], Set(child, q[1..], w).value, p, v);
    } else {
      SetCommutesApart(j, p, v, q, w);
    }
  }

  // ---------------------------------------------------------------------------------------------
  // What a merge leaves where

  /** A non-dict value of the override wins, wherever it stands. */
  lemma {:induction false} OverrideWins(base: Json, over: Json, p: seq<string>)
    requires Get(over, p).Some? && !Get(over, p).value.Dict? && !Get(over, p).value.Null?
    ensures Get(DeepMerge(base, over), p) == Get(over, p)
    decreases |p|
  {
    if p != [] && base.Dict? && p[0] in base.entries && base.entries[p[0]].Dict? {
      OverrideWins(base.entries[p[0]], over.entries[p[0]], p[1..]);
    }
  }

  /** Nothing on the way to `p`, or at it, replaces what the base has there. */
  ghost predicate Silent(over: Json, p: seq<string>) {
    && Get(over, p).None?
    && forall n | 0 <= n < |p| ::
         var o := Get(over, p[..n]);
         o.Some? ==> o.value.Dict? || o.value.Null?
  }

  lemma GetLeaf(j: Json, p: seq<string>)
    requires j.Dict? && p != [] && p[0] in j.entries
    ensures |p| == 1 ==> Get(j, p) == Some(j.entries[p[0]])
  {
    var rest := j.entries[p[0]];
    assert Get(rest, []) == Some(rest);
    assert |p| == 1 ==> p[1..] == [];
  }

  /** A value of the base on which the override is silent survives. */
  lemma {:induction false} BaseSurvives(base: Json, over: Json, p: seq<string>)
    requires Get(base, p).Some? && Silent(over, p)
    ensures Get(DeepMerge(base, over), p) == Get(base, p)
    decreases |p|
  {
    assert p[..0] == [];
    assert Get(over, p[..0]) == Some(over);
    if over.Dict? && p[0] in over.entries {
      var k := p[0];
      var rest := over.entries[k];
      GetLeaf(over, p);
      if |p| > 1 {
        forall n | 0 <= n < |p| - 1
          ensures var o := Get(rest, p[1..][..n]); o.Some? ==> o.value.Dict? || o.value.Null?
        {
          assert p[..n + 1][1..] == p[1..][..n];
          assert Get(over, p[..n + 1]) == Get(rest, p[1..][..n]);
        }
        assert Get(base, p) == Get(base.entries[k], p[1..]);
        assert base.entries[k].Dict?;
        BaseSurvives(base.entries[k], rest, p[1..]);
      }
    }
  }

  // ---------------------------------------------------------------------------------------------
  // The configuration object

  type Override = (string, Json)

  function SetAll(j: Json, overrides: seq<Override>): Option<Json> {
    if overrides == [] then Some(j)
    else
      var before := SetAll(j, overrides[..|overrides| - 1]);
      var (path, v) := overrides[|overrides| - 1];
      if before.None? then None else Set(before.value, SplitDots(path), v)
  }

  ghost predicate Independent(overrides: seq<Override>) {
    forall i, j | 0 <= i < j < |overrides| ::
      Incomparable(SplitDots(overrides[i].0), SplitDots(overrides[j].0))
  }

  /** After overriding independent paths every one of them reads back, and a path unrelated to all
      of them reads as it did. */
  lemma {:induction false} OverridesReadBack(j: Json, overrides: seq<Override>, q: seq<string>)
    requires SetAll(j, overrides).Some? && Independent(overrides)
    ensures forall i | 0 <= i < |overrides| ::
              Get(SetAll(j, overrides).value, SplitDots(overrides[i].0)) == Some(overrides[i].1)
    ensures (forall i | 0 <= i < |overrides| :: Incomparable(SplitDots(overrides[i].0), q)) ==>
              Get(SetAll(j, overrides).value, q) == Get(j, q)
    decreases |overrides|
  {
    if overrides != [] {
      var n := |overrides| - 1;
      var before := SetAll(j, overrides[..n]).value;
      var p, v := SplitDots(overrides[n].0), overrides[n].1;
      assert SetAll(j, overrides) == Set(before, p, v);
      assert Get(v, []) == Some(v) && p + [] == p;
      assert Independent(overrides[..n]);
      hide SplitDots, Set, Get, SetAll;
      OverridesReadBack(j, overrides[..n], q);
      SetThenGet(before, p, v, []);
      forall i | 0 <= i < n
        ensures Get(SetAll(j, overrides).value, SplitDots(overrides[i].0)) == Some(overrides[i].1)
      {
        assert overrides[..n][i] == overrides[i];
        SetElsewhere(before, p, v, SplitDots(overrides[i].0));
      }
      if Incomparable(p, q) {
        SetElsewhere(before, p, v, q);
      }
    }
  }

  class CRPConfig {
    var data: Json

    constructor (data: Json)
      ensures this.data == data
    {
      this.data := data;
    }

    method Read(dotted: string, default: Json) returns (v: Json)
      ensures v == var found := Get(data, SplitDots(dotted)); if found.Some? then found.value else default
    {
      var parts := SplitDots(dotted);
      var node := data;
      assert parts[0..] == parts;
      for i := 0 to |parts|
        invariant Get(node, parts[i..]) == Get(data, parts)
      {
        assert parts[i..][1..] == parts[i + 1..];
        if !node.Dict? || parts[i] !in node.entries {
          return default;
        }
        node := node.entries[parts[i]];
      }
      return node;
    }

    /** `raised` reports the TypeError; nothing is changed then. */
    method Write(dotted: string, v: Json) returns (raised: bool)
      modifies this
      ensures raised == Set(old(data), SplitDots(dotted), v).None?
      ensures data == if raised then old(data) else Set(old(data), SplitDots(dotted), v).value
    {
      var changed := Set(data, SplitDots(dotted), v);
      if changed.None? {
        return true;
      }
      data := changed.value;
      return false;
    }

    /** A changed copy; this object stays as it is. */
    method LayerOverride(overrides: seq<Override>) returns (clone: CRPConfig, raised: bool)
      ensures fresh(clone)
      ensures raised == SetAll(data, overrides).None?
      ensures !raised ==> clone.data == SetAll(data, overrides).value
    {
      clone := new CRPConfig(data);
      raised := false;
      for i := 0 to |overrides|
        invariant fresh(clone)
        invariant SetAll(data, overrides[..i]) == Some(clone.data)
      {
        assert overrides[..i + 1][..i] == overrides[..i];
        raised := clone.Write(overrides[i].0, overrides[i].1);
        if raised {
          SetAllFails(data, overrides, i + 1);
          return;
        }
      }
      assert overrides[..|overrides|] == overrides;
    }
  }

  lemma {:induction false} SetAllFails(j: Json, overrides: seq<Override>, n: nat)
    requires n <= |overrides| && SetAll(j, overrides[..n]).None?
    ensures SetAll(j, overrides).None?
    decreases |overrides|
  {
    if n == |overrides| {
      assert overrides[..n] == overrides;
    } else {
      assert overrides[..|overrides| - 1][..n] == overrides[..n];
      SetAllFails(j, overrides[..|overrides| - 1], n);
    }
  }

  // ---------------------------------------------------------------------------------------------
  // Validation

  /** The "type" of a schema; names outside the checker's table are never checked. */
  datatype TypeName = Absent | StringT | IntegerT | NumberT | BooleanT | ArrayT | ObjectT | Unknown(name: string)

  datatype Schema = Schema(
    stype: TypeName,
    properties: map<string, Schema>,
    items: Option<Schema>,
    enumeration: Option<seq<Json>>,
    minimum: Option<real>,
    maximum: Option<real>)

  datatype PathStep = Key(k: string) | Index(i: nat)

  type Path = seq<PathStep>

  datatype Fault =
    | WrongType(expected: TypeName)
    | NotInEnum(value: Json)
    | BelowMinimum(value: Json)
    | AboveMaximum(value: Json)

  datatype Error = Error(path: Path, fault: Fault)

  /** Raised stands for the TypeError of comparing a non-number with a bound. */
  datatype Outcome = Raised | Done(errors: set<Error>)

  /** Booleans are integers in Python. */
  predicate HasType(value: Json, expected: TypeName) {
    match expected
    case StringT => value.Str?
    case IntegerT => value.Int? || value.Bool?
    case NumberT => value.Int? || value.Float? || value.Bool?
    case BooleanT => value.Bool?
    case ArrayT => value.List?
    case ObjectT => value.Dict?
    case Absent => true
    case Unknown(_) => true
  }

  function Number(value: Json): Option<real> {
    match value
    case Bool(b) => Some(if b then 1.0 else 0.0)
    case Int(i) => Some(i as real)
    case Float(r) => Some(r)
    case _ => None
  }

  /** Equality in Python ignores which kind of number a number is. */
  function Canonical(value: Json): Json {
    match value
    case List(items) => List(seq(|items|, i requires 0 <= i < |items| => Canonical(items[i])))
    case Dict(entries) => Dict(map k | k in entries :: Canonical(entries[k]))
    case _ => if Number(value).Some? then Float(Number(value).value) else value
  }

  predicate InEnum(value: Json, options: seq<Json>) {
    exists o | o in options :: Canonical(o) == Canonical(value)
  }

  predicate IsScalarType(stype: TypeName) {
    stype.StringT? || stype.IntegerT? || stype.NumberT?
  }

  predicate HasBound(s: Schema) {
    s.minimum.Some? || s.maximum.Some?
  }

  function ErrorIf(condition: bool, path: Path, fault: Fault): set<Error> {
    if condition then {Error(path, fault)} else {}
  }

  function EnumErrors(path: Path, value: Json, s: Schema): set<Error> {
    ErrorIf(s.enumeration.Some? && !InEnum(value, s.enumeration.value), path, NotInEnum(value))
  }

  function BoundErrors(path: Path, value: Json, s: Schema): set<Error>
    requires Number(value).Some?
  {
    ErrorIf(s.minimum.Some? && Number(value).value < s.minimum.value, path, BelowMinimum(value)) +
    ErrorIf(s.maximum.Some? && Number(value).value > s.maximum.value, path, AboveMaximum(value))
  }

  function CheckLeaf(path: Path, value: Json, s: Schema): Outcome {
    var typeErrors := ErrorIf(!HasType(value, s.stype), path, WrongType(s.stype));
    if !IsScalarType(s.stype) then Done(typeErrors)
    else if Number(value).Some? then
      Done(typeErrors + EnumErrors(path, value, s) + BoundErrors(path, value, s))
    else if HasBound(s) then Raised
    else Done(typeErrors + EnumErrors(path, value, s))
  }

  function Validate(path: Path, value: Json, s: Schema): Outcome
    decreases value
  {
    if s.stype.ObjectT? && value.Dict? then
      if exists k | k in value.entries && k in s.properties ::
           Validate(path + [Key(k)], value.entries[k], s.properties[k]).Raised?
      then Raised
      else Done(set k, e | k in value.entries && k in s.properties &&
                           e in Validate(path + [Key(k)], value.entries[k], s.properties[k]).errors :: e)
    else if s.stype.ArrayT? && value.List? then
      if s.items.None? then Done({})
      else if exists i | 0 <= i < |value.items| :: Validate(path + [Index(i)], value.items[i], s.items.value).Raised?
      then Raised
      else Done(set i, e | 0 <= i < |value.items| &&
                           e in Validate(path + [Index(i)], value.items[i], s.items.value).errors :: e)
    else if !s.stype.Absent? && !value.Null? then CheckLeaf(path, value, s)
    else Done({})
  }

  ghost predicate Valid(value: Json, s: Schema) {
    Validate([], value, s) == Done({})
  }

  /** Where the errors are. */
  function Paths(errors: set<Error>): set<Path> {
    set e | e in errors :: e.path
  }

  lemma LeafOfDict(path: Path, b: Json, o: Json, m: Json, s: Schema)
    requires b.Dict? && o.Dict? && m.Dict?
    requires CheckLeaf(path, b, s).Done?
    ensures CheckLeaf(path, m, s).Done?
    ensures Paths(CheckLeaf(path, m, s).errors) <= Paths(CheckLeaf(path, b, s).errors)
  {
    hide InEnum;
    if CheckLeaf(path, m, s).errors != {} {
      assert Error(path, WrongType(s.stype)) in CheckLeaf(path, b, s).errors;
    }
  }

  /** The errors of one property are errors of the object. */
  lemma PropertyErrors(path: Path, value: Json, s: Schema, k: string)
    requires s.stype.ObjectT? && value.Dict? && k in value.entries && k in s.properties
    requires Validate(path, value, s).Done?
    ensures Validate(path + [Key(k)], value.entries[k], s.properties[k]).Done?
    ensures Validate(path + [Key(k)], value.entries[k], s.properties[k]).errors <= Validate(path, value, s).errors
  {
  }

  lemma PathsMonotone(a: set<Error>, b: set<Error>)
    requires a <= b
    ensures Paths(a) <= Paths(b)
  {
  }

  /** Merging introduces no error: wherever the merged tree is faulty, one of the two layers was. */
  lemma {:induction false} MergeAddsNoErrors(path: Path, base: Json, over: Json, s: Schema)
    requires Validate(path, base, s).Done? && Validate(path, over, s).Done?
    ensures Validate(path, DeepMerge(base, over), s).Done?
    ensures Paths(Validate(path, DeepMerge(base, over), s).errors) <=
            Paths(Validate(path, base, s).errors) + Paths(Validate(path, over, s).errors)
    decreases over
  {
    if base.Dict? && over.Dict? {
      var merged := DeepMerge(base, over);
      if s.stype.ObjectT? {
        forall k | k in merged.entries && k in s.properties
          ensures var r := Validate(path + [Key(k)], merged.entries[k], s.properties[k]);
                  && r.Done?
                  && Paths(r.errors) <= Paths(Validate(path, base, s).errors) + Paths(Validate(path, over, s).errors)
        {
          MergedProperty(path, base, over, s, k);
        }
        MergedObject(path, base, over, merged, s);
      } else {
        LeafOfDict(path, base, over, merged, s);
      }
    }
  }

  lemma {:induction false} MergedProperty(path: Path, base: Json, over: Json, s: Schema, k: string)
    requires s.stype.ObjectT? && base.Dict? && over.Dict?
    requires Validate(path, base, s).Done? && Validate(path, over, s).Done?
    requires k in DeepMerge(base, over).entries && k in s.properties
    ensures var r := Validate(path + [Key(k)], DeepMerge(base, over).entries[k], s.properties[k]);
            && r.Done?
            && Paths(r.errors) <= Paths(Validate(path, base, s).errors) + Paths(Validate(path, over, s).errors)
    decreases over, 0
  {
    var inner, prop := path + [Key(k)], s.properties[k];
    if k in base.entries {
      PropertyErrors(path, base, s, k);
      PathsMonotone(Validate(inner, base.entries[k], prop).errors, Validate(path, base, s).errors);
    }
    if k in over.entries {
      PropertyErrors(path, over, s, k);
      PathsMonotone(Validate(inner, over.entries[k], prop).errors, Validate(path, over, s).errors);
      if k in base.entries && base.entries[k].Dict? {
        MergeAddsNoErrors(inner, base.entries[k], over.entries[k], prop);
      }
    }
    hide Validate, Paths;
  }

  lemma MergedObject(path: Path, base: Json, over: Json, merged: Json, s: Schema)
    requires s.stype.ObjectT? && merged.Dict?
    requires Validate(path, base, s).Done? && Validate(path, over, s).Done?
    requires forall k | k in merged.entries && k in s.properties ::
               var r := Validate(path + [Key(k)], merged.entries[k], s.properties[k]);
               && r.Done?
               && Paths(r.errors) <= Paths(Validate(path, base, s).errors) + Paths(Validate(path, over, s).errors)
    ensures Validate(path, merged, s).Done?
    ensures Paths(Validate(path, merged, s).errors) <=
            Paths(Validate(path, base, s).errors) + Paths(Validate(path, over, s).errors)
  {
    var bound := Paths(Validate(path, base, s).errors) + Paths(Validate(path, over, s).errors);
    forall e | e in Validate(path, merged, s).errors
      ensures e.path in bound
    {
      var k :| k in merged.entries && k in s.properties &&
        e in Validate(path + [Key(k)], merged.entries[k], s.properties[k]).errors;
      assert e.path in Paths(Validate(path + [Key(k)], merged.entries[k], s.properties[k]).errors);
    }
  }

  /** Validity is closed under layering, for every schema. */
  lemma {:induction false} ValidityClosed(base: Json, over: Json, s: Schema)
    requires Valid(base, s) && Valid(over, s)
    ensures Valid(DeepMerge(base, over), s)
  {
    MergeAddsNoErrors([], base, over, s);
    var errors := Validate([], DeepMerge(base, over), s).errors;
    assert forall e | e in errors :: e.path in Paths(errors);
  }

  // ---------------------------------------------------------------------------------------------
  // When validation raises instead of answering

  /** Validating `value` under `s` comes to check `v` itself, not its parts, under `t`. */
  ghost predicate Reached(value: Json, s: Schema, v: Json, t: Schema)
    decreases value
  {
    if s.stype.ObjectT? && value.Dict? then
      exists k | k in value.entries && k in s.properties :: Reached(value.entries[k], s.properties[k], v, t)
    else if s.stype.ArrayT? && value.List? then
      s.items.Some? && exists i | 0 <= i < |value.items| :: Reached(value.items[i], s.items.value, v, t)
    else
      v == value && t == s
  }

  /** No number, but something, where a bound is to be compared with. */
  predicate Unordered(v: Json, t: Schema) {
    && (v.Str? || v.List? || v.Dict?)
    && (t.stype.StringT? || t.stype.IntegerT? || t.stype.NumberT?)
    && (t.minimum.Some? || t.maximum.Some?)
  }

  lemma {:induction false} ReachedRaises(path: Path, value: Json, s: Schema, v: Json, t: Schema)
    requires Reached(value, s, v, t) && Unordered(v, t)
    ensures Validate(path, value, s).Raised?
    decreases value
  {
    if s.stype.ObjectT? && value.Dict? {
      var k :| k in value.entries && k in s.properties && Reached(value.entries[k], s.properties[k], v, t);
      ReachedRaises(path + [Key(k)], value.entries[k], s.properties[k], v, t);
    } else if s.stype.ArrayT? && value.List? {
      var i :| 0 <= i < |value.items| && Reached(value.items[i], s.items.value, v, t);
      ReachedRaises(path + [Index(i)], value.items[i], s.items.value, v, t);
    }
  }

  lemma {:induction false} RaisedReaches(path: Path, value: Json, s: Schema) returns (v: Json, t: Schema)
    requires Validate(path, value, s).Raised?
    ensures Reached(value, s, v, t) && Unordered(v, t)
    decreases value
  {
    if s.stype.ObjectT? && value.Dict? {
      var k :| k in value.entries && k in s.properties &&
        Validate(path + [Key(k)], value.entries[k], s.properties[k]).Raised?;
      v, t := RaisedReaches(path + [Key(k)], value.entries[k], s.properties[k]);
    } else if s.stype.ArrayT? && value.List? {
      var i: nat :| 0 <= i < |value.items| && Validate(path + [Index(i)], value.items[i], s.items.value).Raised?;
      v, t := RaisedReaches(path + [Index(i)], value.items[i], s.items.value);
    } else {
      v, t := value, s;
    }
  }

  /** The validator promises a list of messages. It raises instead exactly when it comes to a
      non-null non-number under a string, integer or number schema with a bound. */
  lemma RaisesIff(path: Path, value: Json, s: Schema)
    ensures Validate(path, value, s).Raised? <==> exists v, t :: Reached(value, s, v, t) && Unordered(v, t)
  {
    if Validate(path, value, s).Raised? {
      var v, t := RaisedReaches(path, value, s);
    } else if v, t :| Reached(value, s, v, t) && Unordered(v, t) {
      ReachedRaises(path, value, s, v, t);
    }
  }

  /** `safety.settings.require_grounding` is a number between 0 and 1; any text there, whatever else
      the settings hold, is no error message but an exception. */
  lemma TextThresholdRaises(path: Path, value: Json, settings: Schema, threshold: Schema)
    requires threshold.stype.NumberT? && threshold.minimum == Some(0.0) && threshold.maximum == Some(1.0)
    requires settings.stype.ObjectT? && "require_grounding" in settings.properties
    requires settings.properties["require_grounding"] == threshold
    requires value.Dict? && "require_grounding" in value.entries && value.entries["require_grounding"].Str?
    ensures Validate(path, value, settings).Raised?
  {
    var text := value.entries["require_grounding"];
    assert Reached(text, settings.properties["require_grounding"], text, threshold);
    ReachedRaises(path, value, settings, text, threshold);
  }

  // ---------------------------------------------------------------------------------------------
  // The validator as it runs: one shared list, appended to

  /** Whatever is found under a path is reported under that path. */
  lemma {:induction false} ErrorsBelow(path: Path, value: Json, s: Schema)
    requires Validate(path, value, s).Done?
    ensures forall e | e in Validate(path, value, s).errors :: path <= e.path
    decreases value
  {
    forall e | e in Validate(path, value, s).errors
      ensures path <= e.path
    {
      if s.stype.ObjectT? && value.Dict? {
        var k :| k in value.entries && k in s.properties &&
          e in Validate(path + [Key(k)], value.entries[k], s.properties[k]).errors;
        ErrorsBelow(path + [Key(k)], value.entries[k], s.properties[k]);
      } else if s.stype.ArrayT? && value.List? {
        var i: nat :| 0 <= i < |value.items| &&
          e in Validate(path + [Index(i)], value.items[i], s.items.value).errors;
        ErrorsBelow(path + [Index(i)], value.items[i], s.items.value);
      }
    }
  }

  lemma PathsPart(path: Path, a: PathStep, b: PathStep, q: Path)
    requires path + [a] <= q && path + [b] <= q
    ensures a == b
  {
    assert (path + [a])[|path|] == q[|path|] && (path + [b])[|path|] == q[|path|];
  }

  function ErrorsOf(o: Outcome): set<Error> { if o.Raised? then {} else o.errors }

  function PropertyOutcome(path: Path, value: Json, s: Schema, k: string): Outcome
    requires value.Dict? && k in value.entries
  {
    if k in s.properties then Validate(path + [Key(k)], value.entries[k], s.properties[k]) else Done({})
  }

  function ItemOutcome(path: Path, value: Json, item: Schema, i: nat): Outcome
    requires value.List? && i < |value.items|
  {
    Validate(path + [Index(i)], value.items[i], item)
  }

  /** The errors of some of the properties of an object. */
  ghost function ErrorsUnder(path: Path, value: Json, s: Schema, keys: set<string>): set<Error>
    requires value.Dict?
  {
    set k, e | k in value.entries && k in keys && e in ErrorsOf(PropertyOutcome(path, value, s, k)) :: e
  }

  /** The errors of the first `n` items of a list. */
  ghost function ErrorsUpTo(path: Path, value: Json, item: Schema, n: nat): set<Error>
    requires value.List? && n <= |value.items|
  {
    set i, e | 0 <= i < n && e in ErrorsOf(ItemOutcome(path, value, item, i)) :: e
  }

  lemma ObjectOutcome(path: Path, value: Json, s: Schema)
    requires s.stype.ObjectT? && value.Dict?
    ensures ErrorsUnder(path, value, s, {}) == {}
    ensures Validate(path, value, s) ==
            if exists k | k in value.entries :: PropertyOutcome(path, value, s, k).Raised? then Raised
            else Done(ErrorsUnder(path, value, s, value.entries.Keys))
  {
    forall k | k in value.entries && k in s.properties
      ensures Validate(path + [Key(k)], value.entries[k], s.properties[k]) == PropertyOutcome(path, value, s, k)
    {
    }
    if k: string :| k in value.entries && PropertyOutcome(path, value, s, k).Raised? {
      assert k in s.properties;
      assert Validate(path + [Key(k)], value.entries[k], s.properties[k]).Raised?;
    } else if Validate(path, value, s).Done? {
      var all, under := Validate(path, value, s).errors, ErrorsUnder(path, value, s, value.entries.Keys);
      forall e
        ensures e in all <==> e in under
      {
        if e in all {
          var k :| k in value.entries && k in s.properties &&
            e in Validate(path + [Key(k)], value.entries[k], s.properties[k]).errors;
          assert e in ErrorsOf(PropertyOutcome(path, value, s, k));
        }
        if e in under {
          var k :| k in value.entries && e in ErrorsOf(PropertyOutcome(path, value, s, k));
          assert k in s.properties && e in Validate(path + [Key(k)], value.entries[k], s.properties[k]).errors;
        }
      }
      assert all == under;
    }
  }

  lemma ArrayOutcome(path: Path, value: Json, s: Schema)
    requires s.stype.ArrayT? && value.List? && s.items.Some?
    ensures ErrorsUpTo(path, value, s.items.value, 0) == {}
    ensures Validate(path, value, s) ==
            if exists i | 0 <= i < |value.items| :: ItemOutcome(path, value, s.items.value, i).Raised? then Raised
            else Done(ErrorsUpTo(path, value, s.items.value, |value.items|))
  {
    var item := s.items.value;
    forall i | 0 <= i < |value.items|
      ensures Validate(path + [Index(i)], value.items[i], item) == ItemOutcome(path, value, item, i)
    {
    }
    if i: int :| 0 <= i < |value.items| && ItemOutcome(path, value, item, i).Raised? {
      assert Validate(path + [Index(i)], value.items[i], item).Raised?;
    } else if Validate(path, value, s).Done? {
      var all, upTo := Validate(path, value, s).errors, ErrorsUpTo(path, value, item, |value.items|);
      forall e
        ensures e in all <==> e in upTo
      {
        if e in all {
          var i :| 0 <= i < |value.items| && e in Validate(path + [Index(i)], value.items[i], item).errors;
          assert e in ErrorsOf(ItemOutcome(path, value, item, i));
        }
        if e in upTo {
          var i :| 0 <= i < |value.items| && e in ErrorsOf(ItemOutcome(path, value, item, i));
          assert e in Validate(path + [Index(i)], value.items[i], item).errors;
        }
      }
      assert all == upTo;
    }
  }

  /** Appending what is not there yet. */
  lemma Gather<T>(before: multiset<T>, found: set<T>, more: set<T>)
    requires found !! more
    ensures before + multiset(found) + multiset(more) == before + multiset(found + more)
  {
  }

  lemma ErrorsUnderDisjoint(path: Path, value: Json, s: Schema, keys: set<string>, k: string)
    requires value.Dict? && k in value.entries && k !in keys
    ensures ErrorsUnder(path, value, s, keys) !! ErrorsOf(PropertyOutcome(path, value, s, k))
  {
    forall e | e in ErrorsUnder(path, value, s, keys)
      ensures e !in ErrorsOf(PropertyOutcome(path, value, s, k))
    {
      var j :| j in value.entries && j in keys && e in ErrorsOf(PropertyOutcome(path, value, s, j));
      PropertyErrorsBelow(path, value, s, j, e);
      if e in ErrorsOf(PropertyOutcome(path, value, s, k)) {
        PropertyErrorsBelow(path, value, s, k, e);
        PathsPart(path, Key(j), Key(k), e.path);
      }
    }
  }

  lemma PropertyErrorsBelow(path: Path, value: Json, s: Schema, k: string, e: Error)
    requires value.Dict? && k in value.entries && e in ErrorsOf(PropertyOutcome(path, value, s, k))
    ensures path + [Key(k)] <= e.path
  {
    if k in s.properties {
      ErrorsBelow(path + [Key(k)], value.entries[k], s.properties[k]);
    }
  }

  lemma ErrorsUpToDisjoint(path: Path, value: Json, item: Schema, n: nat)
    requires value.List? && n < |value.items|
    ensures ErrorsUpTo(path, value, item, n) !! ErrorsOf(ItemOutcome(path, value, item, n))
  {
    forall e | e in ErrorsUpTo(path, value, item, n)
      ensures e !in ErrorsOf(ItemOutcome(path, value, item, n))
    {
      var i: nat :| 0 <= i < n && e in ErrorsOf(ItemOutcome(path, value, item, i));
      ErrorsBelow(path + [Index(i)], value.items[i], item);
      if e in ErrorsOf(ItemOutcome(path, value, item, n)) {
        ErrorsBelow(path + [Index(n)], value.items[n], item);
        PathsPart(path, Index(i), Index(n), e.path);
      }
    }
  }

  lemma ErrorsUpToStep(path: Path, value: Json, item: Schema, n: nat)
    requires value.List? && n < |value.items|
    ensures ErrorsUpTo(path, value, item, n + 1) ==
            ErrorsUpTo(path, value, item, n) + ErrorsOf(ItemOutcome(path, value, item, n))
  {
  }

  lemma ErrorsUnderStep(path: Path, value: Json, s: Schema, keys: set<string>, k: string)
    requires value.Dict? && k in value.entries
    ensures ErrorsUnder(path, value, s, keys + {k}) ==
            ErrorsUnder(path, value, s, keys) + ErrorsOf(PropertyOutcome(path, value, s, k))
  {
  }

  function ListIf(condition: bool, path: Path, fault: Fault): seq<Error> {
    if condition then [Error(path, fault)] else []
  }

  function TypeList(path: Path, value: Json, s: Schema): seq<Error> {
    ListIf(!HasType(value, s.stype), path, WrongType(s.stype))
  }

  function EnumList(path: Path, value: Json, s: Schema): seq<Error> {
    ListIf(s.enumeration.Some? && !InEnum(value, s.enumeration.value), path, NotInEnum(value))
  }

  function MinimumList(path: Path, value: Json, s: Schema, n: real): seq<Error> {
    ListIf(s.minimum.Some? && n < s.minimum.value, path, BelowMinimum(value))
  }

  function MaximumList(path: Path, value: Json, s: Schema, n: real): seq<Error> {
    ListIf(s.maximum.Some? && n > s.maximum.value, path, AboveMaximum(value))
  }

  /** The messages about one value, in the order in which they are appended. */
  function LeafList(path: Path, value: Json, s: Schema): seq<Error> {
    var types := TypeList(path, value, s);
    if !IsScalarType(s.stype) then types
    else
      var named := types + EnumList(path, value, s);
      if Number(value).None? then named
      else
        var n := Number(value).value;
        named + MinimumList(path, value, s, n) + MaximumList(path, value, s, n)
  }

  /** The list has exactly these errors, each once. */
  ghost predicate Lists(list: seq<Error>, errors: set<Error>) {
    multiset(list) == multiset(errors)
  }

  lemma ListsMore(list: seq<Error>, errors: set<Error>, condition: bool, path: Path, fault: Fault)
    requires Lists(list, errors) && Error(path, fault) !in errors
    ensures Lists(list + ListIf(condition, path, fault), errors + ErrorIf(condition, path, fault))
  {
    if condition {
      Gather(multiset{}, errors, {Error(path, fault)});
    } else {
      assert list + [] == list && errors + {} == errors;
    }
  }

  /** The set that the specification speaks of and the list that is appended. */
  lemma {:induction false} LeafListIsLeaf(path: Path, value: Json, s: Schema)
    requires CheckLeaf(path, value, s).Done?
    ensures Lists(LeafList(path, value, s), CheckLeaf(path, value, s).errors)
  {
    var types := ErrorIf(!HasType(value, s.stype), path, WrongType(s.stype));
    TypesListed(path, value, s);
    if IsScalarType(s.stype) {
      EnumsListed(path, value, s, TypeList(path, value, s), types);
      var list, named := TypeList(path, value, s) + EnumList(path, value, s), types + EnumErrors(path, value, s);
      if Number(value).Some? {
        assert Error(path, BelowMinimum(value)) !in named && Error(path, AboveMaximum(value)) !in named;
        hide *;
        BoundsListed(path, value, s, list, named);
      }
    }
    hide Lists, ErrorIf, ListIf, InEnum, HasType;
  }

  lemma TypesListed(path: Path, value: Json, s: Schema)
    ensures Lists(TypeList(path, value, s), ErrorIf(!HasType(value, s.stype), path, WrongType(s.stype)))
  {
  }

  lemma EnumsListed(path: Path, value: Json, s: Schema, list: seq<Error>, errors: set<Error>)
    requires Lists(list, errors) && Error(path, NotInEnum(value)) !in errors
    ensures Lists(list + EnumList(path, value, s), errors + EnumErrors(path, value, s))
  {
    ListsMore(list, errors, s.enumeration.Some? && !InEnum(value, s.enumeration.value), path, NotInEnum(value));
    hide *;
  }

  lemma UnionAssociates<T>(a: set<T>, b: set<T>, c: set<T>)
    ensures a + b + c == a + (b + c)
  {
  }

  lemma BoundsListed(path: Path, value: Json, s: Schema, list: seq<Error>, errors: set<Error>)
    requires Number(value).Some? && Lists(list, errors)
    requires Error(path, BelowMinimum(value)) !in errors && Error(path, AboveMaximum(value)) !in errors
    ensures var n := Number(value).value;
            Lists(list + MinimumList(path, value, s, n) + MaximumList(path, value, s, n),
              errors + BoundErrors(path, value, s))
  {
    var n := Number(value).value;
    var low, high := s.minimum.Some? && n < s.minimum.value, s.maximum.Some? && n > s.maximum.value;
    var below, above := ErrorIf(low, path, BelowMinimum(value)), ErrorIf(high, path, AboveMaximum(value));
    assert Error(path, AboveMaximum(value)) !in errors + below;
    hide Lists, ErrorIf, ListIf;
    ListsMore(list, errors, low, path, BelowMinimum(value));
    ListsMore(list + MinimumList(path, value, s, n), errors + below, high, path, AboveMaximum(value));
    UnionAssociates(errors, below, above);
  }

  // The whole list, in order. A dict is a map here, so the order of its keys is a parameter.

  /** The keys of the dict at a path, in the order in which they were inserted. */
  type Order = (Path, Json) -> seq<string>

  ghost predicate Orders(order: Order) {
    forall path, value: Json | value.Dict? ::
      Distinct(order(path, value)) && forall k :: k in order(path, value) <==> k in value.entries
  }

  /** What was appended, and whether an exception ended it. */
  datatype Log = Log(errors: seq<Error>, raised: bool)

  function Then(first: Log, second: Log): Log {
    if first.raised then first else Log(first.errors + second.errors, second.raised)
  }

  function Messages(order: Order, path: Path, value: Json, s: Schema): Log
    decreases value, 1
  {
    if s.stype.ObjectT? && value.Dict? then PropertyMessages(order, path, value, s, order(path, value))
    else if s.stype.ArrayT? && value.List? then
      if s.items.None? then Log([], false)
      else ItemMessages(order, path, value, s.items.value, |value.items|)
    else if !s.stype.Absent? && !value.Null? then
      Log(LeafList(path, value, s), CheckLeaf(path, value, s).Raised?)
    else Log([], false)
  }

  function PropertyMessages(order: Order, path: Path, value: Json, s: Schema, keys: seq<string>): Log
    requires value.Dict?
    decreases value, 0, |keys|
  {
    if keys == [] then Log([], false)
    else
      var k := keys[|keys| - 1];
      Then(PropertyMessages(order, path, value, s, keys[..|keys| - 1]), OneProperty(order, path, value, s, k))
  }

  function OneProperty(order: Order, path: Path, value: Json, s: Schema, k: string): Log
    requires value.Dict?
    decreases value, 0, 0
  {
    if k in value.entries && k in s.properties then
      Messages(order, path + [Key(k)], value.entries[k], s.properties[k])
    else Log([], false)
  }

  function ItemMessages(order: Order, path: Path, value: Json, item: Schema, n: nat): Log
    requires value.List? && n <= |value.items|
    decreases value, 0, n
  {
    if n == 0 then Log([], false)
    else
      Then(ItemMessages(order, path, value, item, n - 1),
           Messages(order, path + [Index(n - 1)], value.items[n - 1], item))
  }

  /** The log answers as the specification says, each error once. */
  ghost predicate Means(log: Log, outcome: Outcome) {
    log.raised == outcome.Raised? && (outcome.Done? ==> Lists(log.errors, outcome.errors))
  }

  lemma ListsAppend(a: seq<Error>, found: set<Error>, b: seq<Error>, more: set<Error>)
    requires Lists(a, found) && Lists(b, more) && found !! more
    ensures Lists(a + b, found + more)
  {
    Gather(multiset{}, found, more);
  }

  /** The properties `keys` so far: whether one raised, and otherwise their errors. */
  ghost predicate PropertiesMean(log: Log, path: Path, value: Json, s: Schema, keys: seq<string>)
    requires value.Dict? && forall k | k in keys :: k in value.entries
  {
    && (log.raised <==> exists k | k in keys :: PropertyOutcome(path, value, s, k).Raised?)
    && (!log.raised ==> Lists(log.errors, ErrorsUnder(path, value, s, set k | k in keys)))
  }

  lemma OnePropertyMore(log: Log, next: Log, path: Path, value: Json, s: Schema, keys: seq<string>, k: string)
    requires value.Dict? && k in value.entries && k !in keys && forall j | j in keys :: j in value.entries
    requires PropertiesMean(log, path, value, s, keys) && Means(next, PropertyOutcome(path, value, s, k))
    ensures PropertiesMean(Then(log, next), path, value, s, keys + [k])
  {
    var before: set<string> := set j | j in keys;
    assert (set j | j in keys + [k]) == before + {k};
    ErrorsUnderStep(path, value, s, before, k);
    ErrorsUnderDisjoint(path, value, s, before, k);
    hide PropertyOutcome, ErrorsUnder, Lists;
    if !log.raised && !next.raised {
      ListsAppend(log.errors, ErrorsUnder(path, value, s, before),
        next.errors, ErrorsOf(PropertyOutcome(path, value, s, k)));
    }
  }

  lemma {:induction false} PropertyMessagesMean(
      order: Order, path: Path, value: Json, s: Schema, keys: seq<string>)
    requires Orders(order) && value.Dict? && Distinct(keys) && forall k | k in keys :: k in value.entries
    ensures PropertiesMean(PropertyMessages(order, path, value, s, keys), path, value, s, keys)
    decreases value, 0, |keys|
  {
    if keys == [] {
      NothingUnder(path, value, s);
    } else {
      var n := |keys| - 1;
      var k := keys[n];
      assert keys[..n] + [k] == keys;
      PropertyMessagesMean(order, path, value, s, keys[..n]);
      EmptyLists();
      hide Validate, Messages, Lists, PropertiesMean, Then;
      if k in s.properties {
        MessagesMean(order, path + [Key(k)], value.entries[k], s.properties[k]);
      }
      var next := OneProperty(order, path, value, s, k);
      assert Means(next, PropertyOutcome(path, value, s, k));
      hide Means, PropertyOutcome;
      OnePropertyMore(PropertyMessages(order, path, value, s, keys[..n]), next, path, value, s, keys[..n], k);
    }
  }

  lemma EmptyLists()
    ensures Lists([], {})
  {
  }

  lemma NothingUnder(path: Path, value: Json, s: Schema)
    requires value.Dict?
    ensures PropertiesMean(Log([], false), path, value, s, [])
  {
    EmptyLists();
    assert ErrorsUnder(path, value, s, set k | k in []) == {};
  }

  /** The same for the first `n` items. */
  ghost predicate ItemsMean(log: Log, path: Path, value: Json, item: Schema, n: nat)
    requires value.List? && n <= |value.items|
  {
    && (log.raised <==> exists i | 0 <= i < n :: ItemOutcome(path, value, item, i).Raised?)
    && (!log.raised ==> Lists(log.errors, ErrorsUpTo(path, value, item, n)))
  }

  lemma OneItemMore(log: Log, next: Log, path: Path, value: Json, item: Schema, n: nat)
    requires value.List? && n < |value.items|
    requires ItemsMean(log, path, value, item, n) && Means(next, ItemOutcome(path, value, item, n))
    ensures ItemsMean(Then(log, next), path, value, item, n + 1)
  {
    ErrorsUpToStep(path, value, item, n);
    ErrorsUpToDisjoint(path, value, item, n);
    hide ItemOutcome, ErrorsUpTo, Lists;
    if !log.raised && !next.raised {
      ListsAppend(log.errors, ErrorsUpTo(path, value, item, n),
        next.errors, ErrorsOf(ItemOutcome(path, value, item, n)));
    }
  }

  lemma NoItems(path: Path, value: Json, item: Schema)
    requires value.List?
    ensures ItemsMean(Log([], false), path, value, item, 0)
  {
    EmptyLists();
    assert ErrorsUpTo(path, value, item, 0) == {};
  }

  lemma {:induction false} ItemMessagesMean(order: Order, path: Path, value: Json, item: Schema, n: nat)
    requires Orders(order) && value.List? && n <= |value.items|
    ensures ItemsMean(ItemMessages(order, path, value, item, n), path, value, item, n)
    decreases value, 0, n
  {
    hide Validate, Messages, Lists, ItemsMean, Means, Then;
    if n == 0 {
      NoItems(path, value, item);
    } else {
      ItemMessagesMean(order, path, value, item, n - 1);
      MessagesMean(order, path + [Index(n - 1)], value.items[n - 1], item);
      var next := Messages(order, path + [Index(n - 1)], value.items[n - 1], item);
      assert Means(next, ItemOutcome(path, value, item, n - 1));
      OneItemMore(ItemMessages(order, path, value, item, n - 1), next, path, value, item, n - 1);
    }
  }

  lemma ObjectMeans(log: Log, path: Path, value: Json, s: Schema, keys: seq<string>)
    requires s.stype.ObjectT? && value.Dict? && forall k :: k in keys <==> k in value.entries
    requires PropertiesMean(log, path, value, s, keys)
    ensures Means(log, Validate(path, value, s))
  {
    ObjectOutcome(path, value, s);
    hide Validate, PropertyOutcome, ErrorsUnder, Lists;
    assert (set k | k in keys) == value.entries.Keys;
  }

  lemma ArrayMeans(log: Log, path: Path, value: Json, s: Schema)
    requires s.stype.ArrayT? && value.List? && s.items.Some?
    requires ItemsMean(log, path, value, s.items.value, |value.items|)
    ensures Means(log, Validate(path, value, s))
  {
    ArrayOutcome(path, value, s);
    hide Validate, ItemOutcome, ErrorsUpTo, Lists;
  }

  lemma LeafMeans(path: Path, value: Json, s: Schema)
    ensures Means(Log(LeafList(path, value, s), CheckLeaf(path, value, s).Raised?), CheckLeaf(path, value, s))
  {
    if CheckLeaf(path, value, s).Done? {
      LeafListIsLeaf(path, value, s);
    }
    hide CheckLeaf, LeafList, Lists;
  }

  /** Whatever the order of the keys: the list has exactly the errors of the specification, each once,
      or the exception is raised. */
  lemma {:induction false} MessagesMean(order: Order, path: Path, value: Json, s: Schema)
    requires Orders(order)
    ensures Means(Messages(order, path, value, s), Validate(path, value, s))
    decreases value, 1
  {
    EmptyLists();
    LeafMeans(path, value, s);
    hide PropertyMessages, ItemMessages, PropertiesMean, ItemsMean, CheckLeaf, LeafList;
    if s.stype.ObjectT? && value.Dict? {
      PropertyMessagesMean(order, path, value, s, order(path, value));
      hide Validate;
      ObjectMeans(Messages(order, path, value, s), path, value, s, order(path, value));
    } else if s.stype.ArrayT? && value.List? && s.items.Some? {
      ItemMessagesMean(order, path, value, s.items.value, |value.items|);
      hide Validate;
      ArrayMeans(Messages(order, path, value, s), path, value, s);
    }
  }

  lemma ThenAssociates(a: Log, b: Log, c: Log)
    ensures Then(Then(a, b), c) == Then(a, Then(b, c))
  {
    AppendAssociates(a.errors, b.errors, c.errors);
  }

  /** An exception ends the loop, and nothing behind it matters. */
  lemma {:induction false} RaisedEnds(
      order: Order, path: Path, value: Json, s: Schema, keys: seq<string>, n: nat, start: Log, errors: seq<Error>)
    requires value.Dict? && n <= |keys| && !start.raised
    requires Log(errors, true) == Then(start, PropertyMessages(order, path, value, s, keys[..n]))
    ensures Log(errors, true) == Then(start, PropertyMessages(order, path, value, s, keys))
    decreases |keys|
  {
    hide OneProperty;
    if n < |keys| {
      assert keys[..|keys| - 1][..n] == keys[..n];
      RaisedEnds(order, path, value, s, keys[..|keys| - 1], n, start, errors);
    } else {
      assert keys[..n] == keys;
    }
  }

  lemma {:induction false} RaisedEndsItems(
      order: Order, path: Path, value: Json, item: Schema, n: nat, start: Log, errors: seq<Error>)
    requires value.List? && n <= |value.items| && !start.raised
    requires Log(errors, true) == Then(start, ItemMessages(order, path, value, item, n))
    ensures Log(errors, true) == Then(start, ItemMessages(order, path, value, item, |value.items|))
    decreases |value.items| - n
  {
    hide Messages;
    if n < |value.items| {
      RaisedEndsItems(order, path, value, item, n + 1, start, errors);
    }
  }

  /** One shared list, which the checks append to. */
  class Validator {
    const order: Order
    var errors: seq<Error>

    constructor (order: Order)
      ensures this.order == order && errors == []
    {
      this.order := order;
      errors := [];
    }

    method ReportIf(condition: bool, path: Path, fault: Fault)
      modifies this
      ensures errors == old(errors) + ListIf(condition, path, fault)
    {
      if condition {
        errors := errors + [Error(path, fault)];
      }
    }

    method Leaf(path: Path, value: Json, s: Schema) returns (raised: bool)
      modifies this
      ensures raised == CheckLeaf(path, value, s).Raised?
      ensures errors == old(errors) + LeafList(path, value, s)
    {
      ghost var before, acc := errors, TypeList(path, value, s);
      raised := false;
      ReportIf(!HasType(value, s.stype), path, WrongType(s.stype));
      if IsScalarType(s.stype) {
        ReportIf(s.enumeration.Some? && !InEnum(value, s.enumeration.value), path, NotInEnum(value));
        AppendAssociates(before, acc, EnumList(path, value, s));
        acc := acc + EnumList(path, value, s);
        var n := Number(value);
        if n.None? {
          raised := HasBound(s);
        } else {
          ReportIf(s.minimum.Some? && n.value < s.minimum.value, path, BelowMinimum(value));
          AppendAssociates(before, acc, MinimumList(path, value, s, n.value));
          acc := acc + MinimumList(path, value, s, n.value);
          ReportIf(s.maximum.Some? && n.value > s.maximum.value, path, AboveMaximum(value));
          AppendAssociates(before, acc, MaximumList(path, value, s, n.value));
          acc := acc + MaximumList(path, value, s, n.value);
        }
      }
      assert acc == LeafList(path, value, s);
    }

    method CheckProperty(path: Path, value: Json, s: Schema, k: string) returns (raised: bool)
      requires Orders(order) && value.Dict? && k in value.entries
      modifies this
      ensures Log(errors, raised) == Then(Log(old(errors), false), OneProperty(order, path, value, s, k))
      decreases value, 0
    {
      if k in s.properties {
        raised := Check(path + [Key(k)], value.entries[k], s.properties[k]);
      } else {
        raised := false;
      }
    }

    method CheckObject(path: Path, value: Json, s: Schema) returns (raised: bool)
      requires Orders(order) && s.stype.ObjectT? && value.Dict?
      modifies this
      ensures Log(errors, raised) == Then(Log(old(errors), false), Messages(order, path, value, s))
      decreases value, 1
    {
      var keys := order(path, value);
      ghost var start := Log(errors, false);
      assert keys[..0] == [] && keys[..|keys|] == keys;
      assert forall i | 0 <= i < |keys| :: keys[i] in keys;
      for i := 0 to |keys|
        invariant Log(errors, false) == Then(start, PropertyMessages(order, path, value, s, keys[..i]))
      {
        hide Messages, OneProperty, Then;
        var k := keys[i];
        ghost var before := PropertyMessages(order, path, value, s, keys[..i]);
        ghost var next := OneProperty(order, path, value, s, k);
        raised := CheckProperty(path, value, s, k);
        assert keys[..i + 1][..i] == keys[..i];
        ThenAssociates(start, before, next);
        if raised {
          RaisedEnds(order, path, value, s, keys, i + 1, start, errors);
          return true;
        }
      }
      return false;
    }

    method CheckArray(path: Path, value: Json, s: Schema) returns (raised: bool)
      requires Orders(order) && s.stype.ArrayT? && value.List? && s.items.Some?
      modifies this
      ensures Log(errors, raised) == Then(Log(old(errors), false), Messages(order, path, value, s))
      decreases value, 1
    {
      var item := s.items.value;
      ghost var start := Log(errors, false);
      for i := 0 to |value.items|
        invariant Log(errors, false) == Then(start, ItemMessages(order, path, value, item, i))
      {
        hide Messages, Then;
        ghost var before := ItemMessages(order, path, value, item, i);
        ghost var next := Messages(order, path + [Index(i)], value.items[i], item);
        raised := Check(path + [Index(i)], value.items[i], item);
        ThenAssociates(start, before, next);
        if raised {
          RaisedEndsItems(order, path, value, item, i + 1, start, errors);
          return true;
        }
      }
      return false;
    }

    method Check(path: Path, value: Json, s: Schema) returns (raised: bool)
      requires Orders(order)
      modifies this
      ensures Log(errors, raised) == Then(Log(old(errors), false), Messages(order, path, value, s))
      decreases value, 2
    {
      hide CheckLeaf, LeafList;
      if s.stype.ObjectT? && value.Dict? {
        raised := CheckObject(path, value, s);
      } else if s.stype.ArrayT? && value.List? {
        if s.items.Some? {
          raised := CheckArray(path, value, s);
        } else {
          return false;
        }
      } else if !s.stype.Absent? && !value.Null? {
        raised := Leaf(path, value, s);
      } else {
        return false;
      }
    }
  }
}
