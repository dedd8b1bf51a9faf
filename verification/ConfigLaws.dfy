/** What the validator of crp/config_schema.py reports, in terms of the values and schemas that it comes
    to, with Python's types and comparisons written out. */
module ConfigLaws {

  import opened Common
  import opened Config

  /** Equality in Python: numbers by their value, whatever their kind; lists and dicts member by member. */
  predicate PyEqual(a: Json, b: Json)
    decreases a
  {
    match (a, b)
    case (List(xs), List(ys)) => |xs| == |ys| && forall i | 0 <= i < |xs| :: PyEqual(xs[i], ys[i])
    case (Dict(c), Dict(d)) => c.Keys == d.Keys && forall k | k in c :: PyEqual(c[k], d[k])
    case _ => a == b || (ValueIn(a).Some? && ValueIn(a) == ValueIn(b))
  }

  /** The value of a number; True is 1 and False is 0. */
  function ValueIn(v: Json): Option<real> {
    match v
    case Bool(true) => Some(1.0)
    case Bool(false) => Some(0.0)
    case Int(i) => Some(i as real)
    case Float(r) => Some(r)
    case _ => None
  }

  lemma {:induction false} CanonicalIffEqual(a: Json, b: Json)
    ensures Canonical(a) == Canonical(b) <==> PyEqual(a, b)
    decreases a
  {
    match (a, b)
    case (List(xs), List(ys)) =>
      forall i | 0 <= i < |xs| && i < |ys|
        ensures Canonical(xs[i]) == Canonical(ys[i]) <==> PyEqual(xs[i], ys[i])
      {
        CanonicalIffEqual(xs[i], ys[i]);
      }
      ListsCanonical(xs, ys);
    case (Dict(c), Dict(d)) =>
      forall k | k in c && k in d
        ensures Canonical(c[k]) == Canonical(d[k]) <==> PyEqual(c[k], d[k])
      {
        CanonicalIffEqual(c[k], d[k]);
      }
      DictsCanonical(c, d);
    case _ =>
  }

  lemma ListsCanonical(xs: seq<Json>, ys: seq<Json>)
    ensures Canonical(List(xs)) == Canonical(List(ys)) <==>
              |xs| == |ys| && forall i | 0 <= i < |xs| :: Canonical(xs[i]) == Canonical(ys[i])
  {
    var a, b := Canonical(List(xs)).items, Canonical(List(ys)).items;
    assert forall i | 0 <= i < |xs| :: a[i] == Canonical(xs[i]);
    assert forall i | 0 <= i < |ys| :: b[i] == Canonical(ys[i]);
  }

  lemma DictsCanonical(c: map<string, Json>, d: map<string, Json>)
    ensures Canonical(Dict(c)) == Canonical(Dict(d)) <==>
              c.Keys == d.Keys && forall k | k in c :: Canonical(c[k]) == Canonical(d[k])
  {
    var a, b := Canonical(Dict(c)).entries, Canonical(Dict(d)).entries;
    assert a.Keys == c.Keys && b.Keys == d.Keys;
    assert (forall k | k in c :: a[k] == Canonical(c[k])) && forall k | k in d :: b[k] == Canonical(d[k]);
  }

  /** The value is not of the Python type that the schema names; a bool is an int. */
  predicate NotOfType(v: Json, expected: TypeName) {
    match expected
    case StringT => !v.Str?
    case IntegerT => !v.Int? && !v.Bool?
    case NumberT => !v.Int? && !v.Bool? && !v.Float?
    case BooleanT => !v.Bool?
    case ArrayT => !v.List?
    case ObjectT => !v.Dict?
    case _ => false
  }

  /** The value offends against the schema in this way; enumerations and bounds only count for strings,
      integers and numbers. */
  ghost predicate Violates(v: Json, t: Schema, fault: Fault) {
    var scalar := t.stype in {StringT, IntegerT, NumberT};
    match fault
    case WrongType(expected) => expected == t.stype && NotOfType(v, expected)
    case NotInEnum(x) =>
      scalar && x == v && t.enumeration.Some? && forall o | o in t.enumeration.value :: !PyEqual(o, v)
    case BelowMinimum(x) =>
      scalar && x == v && t.minimum.Some? && ValueIn(v).Some? && ValueIn(v).value < t.minimum.value
    case AboveMaximum(x) =>
      scalar && x == v && t.maximum.Some? && ValueIn(v).Some? && t.maximum.value < ValueIn(v).value
  }

  /** What the validator comes to along a path: through the known properties of dicts and the items of
      lists, to a non-null value under a schema with a type. */
  function Target(value: Json, s: Schema, rel: Path): Option<(Json, Schema)>
    decreases |rel|
  {
    if s.stype.ObjectT? && value.Dict? then
      if rel != [] && rel[0].Key? && rel[0].k in value.entries && rel[0].k in s.properties
      then Target(value.entries[rel[0].k], s.properties[rel[0].k], rel[1..]) else None
    else if s.stype.ArrayT? && value.List? then
      if rel != [] && rel[0].Index? && rel[0].i < |value.items| && s.items.Some?
      then Target(value.items[rel[0].i], s.items.value, rel[1..]) else None
    else if rel == [] && !s.stype.Absent? && !value.Null? then Some((value, s))
    else None
  }

  /** The error names a value that the validator comes to, and what is wrong with it. */
  ghost predicate Explained(path: Path, value: Json, s: Schema, e: Error) {
    path <= e.path &&
    var target := Target(value, s, e.path[|path|..]);
    target.Some? && Violates(target.value.0, target.value.1, e.fault)
  }

  lemma LeafExact(path: Path, value: Json, s: Schema, e: Error)
    requires CheckLeaf(path, value, s).Done?
    ensures e in CheckLeaf(path, value, s).errors <==> e.path == path && Violates(value, s, e.fault)
  {
    assert Number(value) == ValueIn(value);
    if s.enumeration.Some? {
      forall o | o in s.enumeration.value
        ensures Canonical(o) == Canonical(value) <==> PyEqual(o, value)
      {
        CanonicalIffEqual(o, value);
      }
    }
    hide Canonical, PyEqual, Number, ValueIn;
  }

  lemma ExplainedBelow(path: Path, step: PathStep, value: Json, s: Schema, e: Error)
    requires path + [step] <= e.path
    ensures e.path[|path|..] != [] && e.path[|path|] == step
    ensures e.path[|path|..][1..] == e.path[|path + [step]|..]
  {
    assert e.path[..|path| + 1][|path|] == step;
  }

  lemma PathGoesOn(path: Path, e: Error)
    requires path <= e.path && e.path[|path|..] != []
    ensures path + [e.path[|path|..][0]] <= e.path
  {
  }

  /** For every schema and value on which validation does not raise: exactly these errors are reported. */
  lemma {:induction false} ErrorsExact(path: Path, value: Json, s: Schema, e: Error)
    requires Validate(path, value, s).Done?
    ensures e in Validate(path, value, s).errors <==> Explained(path, value, s, e)
    decreases value, 1
  {
    if s.stype.ObjectT? && value.Dict? {
      PropertiesExact(path, value, s, e);
    } else if s.stype.ArrayT? && value.List? {
      if s.items.Some? {
        ItemsExact(path, value, s, e);
      }
    } else if !s.stype.Absent? && !value.Null? {
      LeafExact(path, value, s, e);
      assert e.path == path ==> e.path[|path|..] == [];
      assert path <= e.path && e.path[|path|..] == [] ==> e.path == path;
      hide CheckLeaf, Violates;
    }
  }

  lemma {:induction false} PropertiesExact(path: Path, value: Json, s: Schema, e: Error)
    requires Validate(path, value, s).Done? && s.stype.ObjectT? && value.Dict?
    ensures e in Validate(path, value, s).errors <==> Explained(path, value, s, e)
    decreases value, 0
  {
    hide Violates;
    if e in Validate(path, value, s).errors {
      var k :| k in value.entries && k in s.properties &&
        e in Validate(path + [Key(k)], value.entries[k], s.properties[k]).errors;
      ErrorsExact(path + [Key(k)], value.entries[k], s.properties[k], e);
      hide Validate;
      ExplainedBelow(path, Key(k), value, s, e);
    }
    if Explained(path, value, s, e) {
      var k := e.path[|path|..][0].k;
      PathGoesOn(path, e);
      assert Validate(path + [Key(k)], value.entries[k], s.properties[k]).Done?;
      ErrorsExact(path + [Key(k)], value.entries[k], s.properties[k], e);
      ExplainedBelow(path, Key(k), value, s, e);
    }
  }

  lemma {:induction false} ItemsExact(path: Path, value: Json, s: Schema, e: Error)
    requires Validate(path, value, s).Done? && s.stype.ArrayT? && value.List? && s.items.Some?
    ensures e in Validate(path, value, s).errors <==> Explained(path, value, s, e)
    decreases value, 0
  {
    hide Violates;
    if e in Validate(path, value, s).errors {
      var i: nat :| 0 <= i < |value.items| &&
        e in Validate(path + [Index(i)], value.items[i], s.items.value).errors;
      ErrorsExact(path + [Index(i)], value.items[i], s.items.value, e);
      hide Validate;
      ExplainedBelow(path, Index(i), value, s, e);
    }
    if Explained(path, value, s, e) {
      var i := e.path[|path|..][0].i;
      PathGoesOn(path, e);
      assert Validate(path + [Index(i)], value.items[i], s.items.value).Done?;
      ErrorsExact(path + [Index(i)], value.items[i], s.items.value, e);
      ExplainedBelow(path, Index(i), value, s, e);
    }
  }

  // ---------------------------------------------------------------------------------------------
  // The order of the messages

  function Turn(fault: Fault): nat {
    match fault
    case WrongType(_) => 1
    case NotInEnum(_) => 2
    case BelowMinimum(_) => 3
    case AboveMaximum(_) => 4
  }

  /** The messages about one value come in the order type, enumeration, minimum, maximum. */
  lemma LeafInOrder(path: Path, value: Json, s: Schema, i: nat, j: nat)
    requires i < j < |LeafList(path, value, s)|
    ensures Turn(LeafList(path, value, s)[i].fault) < Turn(LeafList(path, value, s)[j].fault)
  {
    hide HasType, InEnum, Number;
  }

  /** The log is that of parts that run one after the other until one of them raises. */
  ghost predicate InTurn(log: Log, parts: seq<Log>, n: nat) {
    && n <= |parts|
    && (forall i | 0 <= i < n :: !parts[i].raised)
    && (if log.raised then n < |parts| && parts[n].raised else n == |parts|)
    && log.errors == Flatten(ErrorsOfEach(parts[..if log.raised then n + 1 else n]))
  }

  function ErrorsOfEach(parts: seq<Log>): (r: seq<seq<Error>>)
    ensures |r| == |parts| && forall i | 0 <= i < |r| :: r[i] == parts[i].errors
  {
    seq(|parts|, i requires 0 <= i < |parts| => parts[i].errors)
  }

  lemma InTurnMore(log: Log, parts: seq<Log>, n: nat, next: Log)
    requires InTurn(log, parts, n)
    ensures InTurn(Then(log, next), parts + [next], if log.raised || next.raised then n else n + 1)
  {
    if log.raised {
      assert (parts + [next])[..n + 1] == parts[..n + 1];
    } else {
      assert parts[..n] == parts && (parts + [next])[..n + 1] == parts + [next];
      assert ErrorsOfEach(parts + [next]) == ErrorsOfEach(parts) + [next.errors];
      FlattenSnoc(ErrorsOfEach(parts), next.errors);
    }
    hide Flatten;
  }

  function ItemLogs(order: Order, path: Path, value: Json, item: Schema, n: nat): seq<Log>
    requires value.List? && n <= |value.items|
  {
    seq(n, i requires 0 <= i < n => Messages(order, path + [Index(i)], value.items[i], item))
  }

  lemma {:induction false} ItemsInTurn(order: Order, path: Path, value: Json, item: Schema, n: nat) returns (m: nat)
    requires value.List? && n <= |value.items|
    ensures InTurn(ItemMessages(order, path, value, item, n), ItemLogs(order, path, value, item, n), m)
  {
    if n == 0 {
      m := 0;
    } else {
      m := ItemsInTurn(order, path, value, item, n - 1);
      var next := Messages(order, path + [Index(n - 1)], value.items[n - 1], item);
      var before := ItemMessages(order, path, value, item, n - 1);
      assert ItemLogs(order, path, value, item, n) == ItemLogs(order, path, value, item, n - 1) + [next];
      hide InTurn, Messages;
      InTurnMore(before, ItemLogs(order, path, value, item, n - 1), m, next);
      m := if before.raised || next.raised then m else m + 1;
    }
  }

  /** A key that the schema does not know is passed over. */
  function PropertyLogs(order: Order, path: Path, value: Json, s: Schema, keys: seq<string>): seq<Log>
    requires value.Dict? && forall k | k in keys :: k in value.entries
  {
    seq(|keys|, i requires 0 <= i < |keys| =>
      if keys[i] in s.properties
      then Messages(order, path + [Key(keys[i])], value.entries[keys[i]], s.properties[keys[i]])
      else Log([], false))
  }

  lemma {:induction false} PropertiesInTurn(order: Order, path: Path, value: Json, s: Schema, keys: seq<string>)
    returns (m: nat)
    requires value.Dict? && forall k | k in keys :: k in value.entries
    ensures InTurn(PropertyMessages(order, path, value, s, keys), PropertyLogs(order, path, value, s, keys), m)
    decreases |keys|
  {
    if keys == [] {
      m := 0;
    } else {
      var n := |keys| - 1;
      assert keys == keys[..n] + [keys[n]];
      m := PropertiesInTurn(order, path, value, s, keys[..n]);
      var next := OneProperty(order, path, value, s, keys[n]);
      var before := PropertyMessages(order, path, value, s, keys[..n]);
      assert PropertyLogs(order, path, value, s, keys) == PropertyLogs(order, path, value, s, keys[..n]) + [next];
      hide InTurn, Messages;
      InTurnMore(before, PropertyLogs(order, path, value, s, keys[..n]), m, next);
      m := if before.raised || next.raised then m else m + 1;
    }
  }

  /** The messages about a dict are those about its known keys, in the order of the dict, and those about
      a list are those about its items, in their order, up to the first part that raises. */
  lemma MessagesInTurn(order: Order, path: Path, value: Json, s: Schema) returns (m: nat)
    requires Orders(order)
    ensures s.stype.ObjectT? && value.Dict? ==>
              && (forall k | k in order(path, value) :: k in value.entries)
              && InTurn(Messages(order, path, value, s), PropertyLogs(order, path, value, s, order(path, value)), m)
    ensures s.stype.ArrayT? && value.List? && s.items.Some? ==>
              InTurn(Messages(order, path, value, s),
                ItemLogs(order, path, value, s.items.value, |value.items|), m)
  {
    hide InTurn;
    m := 0;
    if s.stype.ObjectT? && value.Dict? {
      m := PropertiesInTurn(order, path, value, s, order(path, value));
    } else if s.stype.ArrayT? && value.List? && s.items.Some? {
      m := ItemsInTurn(order, path, value, s.items.value, |value.items|);
    }
  }
}
