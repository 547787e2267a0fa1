/** The metadata predicate builder of hana/metadata.py: `MD` collects a key path, then an
    operator and a bound value, and `eval(v)` applies the operator to the bound value and
    `v`, in that order. */
module Metadata {
  import opened Errors
  import opened Values

  /** The operators a predicate can bind: the six comparisons, `in_`, `nin`, `startswith`
      and `endswith`. */
  datatype Op = Eq | Ne | Lt | Le | Gt | Ge | In | NotIn | StartsWith | EndsWith

  /** The `name` argument of `MD(...)`: one key (a string), or a key path (a tuple). */
  datatype NameArg = Key(key: string) | KeyPath(keys: seq<string>)

  /** `if isinstance(name, str): self.name = (name,)` (hana/metadata.py:22-25). */
  function NamePath(n: NameArg): seq<string> {
    match n
    case Key(k) => [k]
    case KeyPath(ks) => ks
  }

  /** The pairs Python orders with `<`: two integers or two strings. */
  predicate Ordered(c: Value, v: Value) {
    (c.IntV? && v.IntV?) || (c.StrV? && v.StrV?)
  }

  /** Python `c < v` on an ordered pair. */
  function Less(c: Value, v: Value): bool
    requires Ordered(c, v)
  {
    if c.IntV? then c.i < v.i else StrLess(c.s, v.s)
  }

  predicate IsSuffix(s: string, t: string) {
    |s| <= |t| && t[|t| - |s|..] == s
  }

  /** The operands an operator accepts without raising TypeError: any two values compare
      for (in)equality; ordering needs two integers or two strings; `in` needs a string
      searched for in a string, or any value looked for in a list; `str()` is modelled on
      None, integers and strings. */
  predicate Applicable(o: Op, c: Value, v: Value) {
    match o
    case Eq => true
    case Ne => true
    case Lt => Ordered(c, v)
    case Le => Ordered(c, v)
    case Gt => Ordered(c, v)
    case Ge => Ordered(c, v)
    case In => (c.StrV? && v.StrV?) || c.ListV?
    case NotIn => (c.StrV? && v.StrV?) || c.ListV?
    case StartsWith => Stringable(c) && Stringable(v)
    case EndsWith => Stringable(c) && Stringable(v)
  }

  /** `self.op(self.value, value)`: the bound value `c` is the left operand and the value
      under test `v` the right one (hana/metadata.py:45-100, 121-122). */
  function Apply(o: Op, c: Value, v: Value): bool
    requires Applicable(o, c, v)
  {
    match o
    case Eq => c == v
    case Ne => c != v
    case Lt => Less(c, v)
    case Le => Less(c, v) || c == v
    case Gt => Less(v, c)
    case Ge => Less(v, c) || c == v
    case In => Contains(c, v)
    case NotIn => !Contains(c, v)
    case StartsWith => ToStr(c) <= ToStr(v)
    case EndsWith => IsSuffix(ToStr(c), ToStr(v))
  }

  /** `operator.__contains__(c, v)`, that is Python `v in c`. */
  function Contains(c: Value, v: Value): bool
    requires (c.StrV? && v.StrV?) || c.ListV?
  {
    if c.StrV? then IsSubstring(v.s, c.s) else v in c.items
  }

  /** The ordering operators compare the bound value with the value under test as
      Python does: integers numerically, strings lexicographically. `>` is `<` with the
      operands swapped, and `<=` and `>=` are the complements of `>` and `<`. So after
      `MD.x < 5`, `eval(v)` holds exactly when `5 < v`. */
  lemma ComparisonMeaning(c: Value, v: Value)
    requires Ordered(c, v)
    ensures c.IntV? ==> (Apply(Lt, c, v) <==> c.i < v.i)
    ensures c.StrV? ==> (Apply(Lt, c, v) <==> LexBefore(c.s, v.s))
    ensures Apply(Gt, c, v) <==> Apply(Lt, v, c)
    ensures Apply(Le, c, v) <==> !Apply(Gt, c, v)
    ensures Apply(Ge, c, v) <==> !Apply(Lt, c, v)
  {
    if c.StrV? {
      StrLessIsLexicographic(c.s, v.s);
      StrLessTrichotomy(c.s, v.s);
    }
  }

  /** `in_(c)` holds for the values `c` contains (a substring of a string, an element of
      a list) and `nin(c)` for exactly the others. */
  lemma MembershipMeaning(c: Value, v: Value)
    requires (c.StrV? && v.StrV?) || c.ListV?
    ensures c.StrV? ==> (Apply(In, c, v) <==> exists i :: OccursAt(v.s, c.s, i))
    ensures c.ListV? ==> (Apply(In, c, v) <==> exists i :: 0 <= i < |c.items| && c.items[i] == v)
    ensures Apply(NotIn, c, v) <==> !Apply(In, c, v)
  {
    if c.StrV? {
      IsSubstringIffOccurs(v.s, c.s);
    }
  }

  /** `s.startswith(p)`: `p` followed by something is `s`. */
  lemma PrefixWitness(p: string, s: string)
    ensures p <= s <==> exists t :: s == p + t
  {
    if p <= s {
      assert s == p + s[|p|..];
    }
    if exists t :: s == p + t {
      var t :| s == p + t;
      assert s[..|p|] == p;
    }
  }

  /** `s.endswith(p)`: something followed by `p` is `s`. */
  lemma SuffixWitness(p: string, s: string)
    ensures IsSuffix(p, s) <==> exists t :: s == t + p
  {
    if IsSuffix(p, s) {
      assert s == s[..|s| - |p|] + p;
    }
    if exists t :: s == t + p {
      var t :| s == t + p;
      assert s[|t|..] == p;
    }
  }

  /** `startswith(c)` holds when `str(v)` is `str(c)` followed by something, and
      `endswith(c)` when it is something followed by `str(c)`. */
  lemma AffixMeaning(c: Value, v: Value)
    requires Stringable(c) && Stringable(v)
    ensures Apply(StartsWith, c, v) <==> exists t :: ToStr(v) == ToStr(c) + t
    ensures Apply(EndsWith, c, v) <==> exists t :: ToStr(v) == t + ToStr(c)
  {
    PrefixWitness(ToStr(c), ToStr(v));
    SuffixWitness(ToStr(c), ToStr(v));
  }

  /** The names ordinary attribute lookup finds on the class `MD` other than the
      `__x__` names: MD's public methods (hana/metadata.py:75-122) and `mro`, which
      `type` gives every class. */
  const OwnMembers: set<string> :=
    {"in_", "nin", "startswith", "endswith", "match", "asc", "desc", "eval", "mro"}

  /** Python's system-defined `__x__` names. */
  predicate IsSystemName(key: string) {
    |key| >= 4 && key[..2] == "__" && key[|key| - 2..] == "__"
  }

  /** What `MD.key` looks up: a fresh predicate on `(key,)`, or a member of the class. */
  datatype AttrLookup = Predicate(md: MD) | OwnMember(member: string)

  class MD {
    var name: seq<string>
    var op: Option<Op>
    var value: Value
    var order: string

    /** `MD(name, op=None, value=None, order='asc')` (hana/metadata.py:21-30). */
    constructor (n: NameArg, o: Option<Op>, c: Value, ord: string)
      ensures name == NamePath(n) && op == o && value == c && order == ord
    {
      name := NamePath(n);
      op := o;
      value := c;
      order := ord;
    }

    /** `MD(name)` with the defaults: no operator, the value None, ascending order. */
    constructor Named(n: NameArg)
      ensures name == NamePath(n) && op == None && value == NoneV && order == "asc"
    {
      name := NamePath(n);
      op := None;
      value := NoneV;
      order := "asc";
    }

    /** `MD.key` (hana/metadata.py:5-6). `MDMeta.__getattr__` runs only when ordinary
        lookup on the class fails: a key that names one of MD's own methods, or `mro`
        of its metaclass, gives that member rather than a predicate. */
    static method Attr(key: string) returns (r: AttrLookup)
      requires !IsSystemName(key)
      ensures r.OwnMember? <==> key in OwnMembers
      ensures r.OwnMember? ==> r.member == key
      ensures r.Predicate? ==>
                && fresh(r.md)
                && r.md.name == [key] && r.md.op == None && r.md.value == NoneV && r.md.order == "asc"
    {
      if key in OwnMembers {
        return OwnMember(key);
      }
      var md := new MD.Named(Key(key));
      return Predicate(md);
    }

    /** `MD[name]`, through `MDMeta.__getitem__` (hana/metadata.py:8-9). */
    static method Item(n: NameArg) returns (r: MD)
      ensures fresh(r)
      ensures r.name == NamePath(n) && r.op == None && r.value == NoneV && r.order == "asc"
    {
      r := new MD.Named(n);
    }

    /** `md[item]` (hana/metadata.py:32-38): appends to the key path and returns the same
        predicate, not a copy. */
    method Index(item: string) returns (r: MD)
      modifies this`name
      ensures r == this
      ensures name == old(name) + [item]
    {
      name := name + [item];
      r := this;
    }

    /** `md == c`, `md < c`, `md.in_(c)`, ... (hana/metadata.py:45-100): overwrites the
        operator and the bound value, so a second operator replaces the first, and
        returns the same predicate. The key path and the order are untouched. */
    method Bind(o: Op, c: Value) returns (r: MD)
      modifies this`op, this`value
      ensures r == this
      ensures op == Some(o) && value == c
    {
      op := Some(o);
      value := c;
      r := this;
    }

    /** `asc()` (hana/metadata.py:113-114); it returns None, not the predicate. */
    method Asc()
      modifies this`order
      ensures order == "asc"
    {
      order := "asc";
    }

    /** `desc()` (hana/metadata.py:116-117). */
    method Desc()
      modifies this`order
      ensures order == "desc"
    {
      order := "desc";
    }

    /** `eval(value)` (hana/metadata.py:121-122): before any operator is bound, `op` is
        None and calling it raises TypeError. */
    function Eval(v: Value): (r: Result<bool>)
      reads this
      requires op.Some? ==> Applicable(op.value, value, v)
      ensures r.Err? <==> op.None?
      ensures r.Err? ==> r.error == TypeError
      ensures r.Ok? ==> r.value == Apply(op.value, value, v)
    {
      if op.None? then Err(TypeError) else Ok(Apply(op.value, value, v))
    }
  }

  // The documented uses of `MD` (test/test_metadata.py), replayed on the model.

  method KeyPathExample() {
    var a := MD.Item(Key("test"));
    var b := a.Index("this");
    assert b == a && b.name == ["test", "this"];
    var c := new MD.Named(KeyPath(["mykey", "two"]));
    assert c.name == ["mykey", "two"];
    var d := MD.Attr("desc");
    assert d == OwnMember("desc");
  }

  method EqualityExample() {
    var l := MD.Attr("mykey");
    var m := l.md;
    m := m.Bind(Eq, IntV(5));
    assert m.name == ["mykey"] && m.value == IntV(5);
    assert m.Eval(IntV(5)) == Ok(true) && m.Eval(IntV(6)) == Ok(false);
  }

  method SubstringExample() {
    var l := MD.Attr("mykey");
    var m := l.md;
    m := m.Bind(In, StrV("asd"));
    assert "d" <= "d";
    assert m.Eval(StrV("d")) == Ok(true);
    assert "asd"[1..] == "sd" && "sd"[1..] == "d" && "d"[1..] == "";
    assert !IsSubstring("f", "");
    assert "f"[0] != "d"[0];
    assert !IsSubstring("f", "d");
    assert m.Eval(StrV("f")) == Ok(false);
  }

  method ListMembershipExample() {
    var l := MD.Attr("mykey");
    var m := l.md;
    m := m.Bind(NotIn, ListV([IntV(1), IntV(2), IntV(3)]));
    assert m.Eval(IntV(3)) == Ok(false) && m.Eval(IntV(5)) == Ok(true);
  }

  method PrefixExample() {
    var l := MD.Attr("mykey");
    var m := l.md;
    m := m.Bind(StartsWith, StrV("as"));
    assert m.Eval(StrV("asd")) == Ok(true);
    assert "fgh"[0] != "as"[0];
    assert m.Eval(StrV("fgh")) == Ok(false);
  }

  /** The bound value is the left operand: `MD.after < 5` accepts 7 and rejects 3. */
  method BoundValueOnLeftExample() {
    var l := MD.Attr("after");
    var m := l.md;
    m := m.Bind(Lt, IntV(5));
    assert m.Eval(IntV(7)) == Ok(true) && m.Eval(IntV(3)) == Ok(false);
    m.Desc();
    assert m.order == "desc" && m.op == Some(Lt);
  }
}
