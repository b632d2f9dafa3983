/**
 The JSON value type and its ordering.

 Arrays and objects are both an ordered map from keys to values; the map is kept as its list of
 entries in ascending key order, so two maps are equal exactly when their lists are.  An array may
 have holes: its size is its highest index plus one.
 */
module JsonValue {
  import opened ByteText

  const MIN_INT: int := -0x8000_0000_0000_0000
  const MAX_INT: int := 0x7FFF_FFFF_FFFF_FFFF
  const MAX_UINT: int := 0xFFFF_FFFF_FFFF_FFFF

  datatype Key = Index(index: nat) | Name(name: Bytes)

  datatype Entry = Entry(key: Key, value: Value)

  datatype Value =
    | Null
    | Int(int_: int)
    | UInt(uint_: nat)
    | Real(real_: real)
    | Str(str_: Option<Bytes>)  // None is the null pointer of a default-constructed string value
    | Bool(bool_: bool)
    | Array(map_: seq<Entry>)
    | Object(map_: seq<Entry>)

  /** Position of the value's type in the type enumeration. */
  function TypeRank(v: Value): int {
    match v
    case Null => 0
    case Int(_) => 1
    case UInt(_) => 2
    case Real(_) => 3
    case Str(_) => 4
    case Bool(_) => 5
    case Array(_) => 6
    case Object(_) => 7
  }

  // ---------- comparison of strings and keys ----------

  /** strcmp(s, t) < 0 on zero-terminated strings. */
  predicate StrLess(s: Bytes, t: Bytes) {
    if t == [] then false
    else if s == [] then true
    else if s[0] != t[0] then s[0] < t[0]
    else StrLess(s[1..], t[1..])
  }

  /** Order of keys.  No map mixes the two kinds of key; the order between the kinds is arbitrary. */
  predicate KeyLess(k: Key, l: Key) {
    if k.Name? && l.Name? then StrLess(k.name, l.name)
    else if k.Index? && l.Index? then k.index < l.index
    else k.Index?
  }

  // ---------- well-formed values ----------

  ghost function Weight(v: Value): nat {
    match v
    case Array(m) => 1 + MapWeight(m)
    case Object(m) => 1 + MapWeight(m)
    case _ => 0
  }

  ghost function EntryWeight(e: Entry): (w: nat)
    ensures w == Weight(e.value)
  {
    Weight(e.value)
  }

  ghost function MapWeight(m: seq<Entry>): nat {
    if m == [] then 0 else 1 + EntryWeight(m[0]) + MapWeight(m[1..])
  }

  /** Entries have keys of the one kind, in strictly ascending order, and well-formed values. */
  ghost predicate ValidMap(m: seq<Entry>, named: bool)
    decreases MapWeight(m)
  {
    m == [] ||
    (&& m[0].key.Name? == named
     && (named ==> NulFree(m[0].key.name))
     && Valid(m[0].value)
     && ValidMap(m[1..], named)
     && (|m| > 1 ==> KeyLess(m[0].key, m[1].key)))
  }

  ghost predicate Valid(v: Value)
    decreases Weight(v)
  {
    match v
    case Int(i) => MIN_INT <= i <= MAX_INT
    case UInt(u) => u <= MAX_UINT
    case Str(s) => s.Some? ==> NulFree(s.value)
    case Array(m) => ValidMap(m, false)
    case Object(m) => ValidMap(m, true)
    case _ => true
  }

  // ---------- access to a map ----------

  function Lookup(m: seq<Entry>, key: Key): (r: Option<Value>)
    ensures r.Some? ==> Weight(r.value) < MapWeight(m)
  {
    if m == [] then None else if m[0].key == key then Some(m[0].value) else Lookup(m[1..], key)
  }

  /** Insertion in key order, or replacement of the value already there. */
  function Put(m: seq<Entry>, e: Entry): seq<Entry> {
    if m == [] || KeyLess(e.key, m[0].key) then [e] + m
    else if m[0].key == e.key then [e] + m[1..]
    else [m[0]] + Put(m[1..], e)
  }

  /** size() of an array: its highest index plus one. */
  function ArraySize(m: seq<Entry>): nat {
    if m == [] || m[|m| - 1].key.Name? then 0 else m[|m| - 1].key.index + 1
  }

  /** The const subscript of an array: null where there is a hole. */
  function ElementAt(m: seq<Entry>, i: nat): (v: Value)
    ensures v == Null || Weight(v) < MapWeight(m)
  {
    match Lookup(m, Index(i))
    case Some(v) => v
    case None => Null
  }

  /** After an insertion the key has the new value, and every other key what it had. */
  lemma {:induction false} LookupPut(m: seq<Entry>, e: Entry, key: Key)
    ensures Lookup(Put(m, e), key) == if key == e.key then Some(e.value) else Lookup(m, key)
  {
    if m == [] || KeyLess(e.key, m[0].key) {
      assert ([e] + m)[1..] == m;
    } else if m[0].key == e.key {
      assert ([e] + m[1..])[1..] == m[1..];
    } else {
      LookupPut(m[1..], e, key);
      assert ([m[0]] + Put(m[1..], e))[1..] == Put(m[1..], e);
    }
  }

  /** The size of an array is the least number above all its indices. */
  lemma {:induction false} SizeIsLeastBound(m: seq<Entry>, i: nat)
    requires ValidMap(m, false)
    ensures Lookup(m, Index(i)).Some? ==> i < ArraySize(m)
    ensures i + 1 == ArraySize(m) ==> Lookup(m, Index(i)).Some?
  {
    if |m| > 1 {
      SizeIsLeastBound(m[1..], i);
      assert m[1..][|m| - 2] == m[|m| - 1];
      SizeIsLeastBound(m[1..], m[1].key.index);
    }
  }

  // ---------- operator< and operator== ----------

  predicate Less(a: Value, b: Value)
    requires Valid(a) && Valid(b)
    decreases Weight(a) + Weight(b)
  {
    if TypeRank(a) != TypeRank(b) then TypeRank(a) < TypeRank(b)
    else match a
      case Null => false
      case Int(i) => i < b.int_
      case UInt(u) => u < b.uint_
      case Real(r) => r < b.real_
      case Bool(c) => !c && b.bool_
      case Str(s) => b.str_.Some? && (s.None? || StrLess(s.value, b.str_.value))
      case Array(m) => if |m| != |b.map_| then |m| < |b.map_| else MapLess(m, b.map_, false)
      case Object(m) => if |m| != |b.map_| then |m| < |b.map_| else MapLess(m, b.map_, true)
  }

  /** Lexicographic comparison of two maps' (key, value) pairs. */
  predicate MapLess(m: seq<Entry>, n: seq<Entry>, named: bool)
    requires ValidMap(m, named) && ValidMap(n, named)
    decreases MapWeight(m) + MapWeight(n)
  {
    if n == [] then false
    else if m == [] then true
    else if KeyLess(m[0].key, n[0].key) || (!KeyLess(n[0].key, m[0].key) && Less(m[0].value, n[0].value)) then true
    else if KeyLess(n[0].key, m[0].key) || (!KeyLess(m[0].key, n[0].key) && Less(n[0].value, m[0].value)) then false
    else MapLess(m[1..], n[1..], named)
  }

  predicate Equal(a: Value, b: Value)
    requires Valid(a) && Valid(b)
    decreases Weight(a) + Weight(b)
  {
    TypeRank(a) == TypeRank(b) &&
    match a
    case Null => true
    case Int(i) => i == b.int_
    case UInt(u) => u == b.uint_
    case Real(r) => r == b.real_
    case Bool(c) => c == b.bool_
    case Str(s) => s == b.str_
    case Array(m) => |m| == |b.map_| && MapEqual(m, b.map_, false)
    case Object(m) => |m| == |b.map_| && MapEqual(m, b.map_, true)
  }

  predicate MapEqual(m: seq<Entry>, n: seq<Entry>, named: bool)
    requires ValidMap(m, named) && ValidMap(n, named) && |m| == |n|
    decreases MapWeight(m) + MapWeight(n)
  {
    m == [] || (m[0].key == n[0].key && Equal(m[0].value, n[0].value) && MapEqual(m[1..], n[1..], named))
  }

  // ---------- the order is total ----------

  /** Exactly one of three. */
  ghost predicate OneOf(p: bool, q: bool, r: bool) {
    (p || q || r) && !(p && q) && !(q && r) && !(p && r)
  }

  lemma {:induction false} StrTrichotomy(s: Bytes, t: Bytes)
    ensures OneOf(StrLess(s, t), s == t, StrLess(t, s))
  {
    if s != [] && t != [] && s[0] == t[0] {
      StrTrichotomy(s[1..], t[1..]);
      assert s == [s[0]] + s[1..] && t == [t[0]] + t[1..];
    }
  }

  lemma {:induction false} StrTransitive(s: Bytes, t: Bytes, u: Bytes)
    requires StrLess(s, t) && StrLess(t, u)
    ensures StrLess(s, u)
  {
    if s != [] && s[0] == t[0] && t[0] == u[0] {
      StrTransitive(s[1..], t[1..], u[1..]);
    }
  }

  lemma KeyTrichotomy(k: Key, l: Key)
    ensures OneOf(KeyLess(k, l), k == l, KeyLess(l, k))
  {
    if k.Name? && l.Name? {
      StrTrichotomy(k.name, l.name);
    }
  }

  lemma KeyTransitive(k: Key, l: Key, n: Key)
    requires KeyLess(k, l) && KeyLess(l, n)
    ensures KeyLess(k, n)
  {
    if k.Name? && l.Name? && n.Name? {
      StrTransitive(k.name, l.name, n.name);
    }
  }

  /** Of two values exactly one of "less", "the same value" and "greater" holds. */
  lemma {:induction false} Trichotomy(a: Value, b: Value)
    requires Valid(a) && Valid(b)
    ensures OneOf(Less(a, b), a == b, Less(b, a))
    decreases Weight(a) + Weight(b)
  {
    if TypeRank(a) == TypeRank(b) {
      match a
      case Str(s) =>
        if s.Some? && b.str_.Some? {
          StrTrichotomy(s.value, b.str_.value);
        }
      case Array(m) =>
        if |m| == |b.map_| {
          MapTrichotomy(m, b.map_, false);
        }
      case Object(m) =>
        if |m| == |b.map_| {
          MapTrichotomy(m, b.map_, true);
        }
      case _ =>
    }
  }

  lemma {:induction false} MapTrichotomy(m: seq<Entry>, n: seq<Entry>, named: bool)
    requires ValidMap(m, named) && ValidMap(n, named)
    ensures OneOf(MapLess(m, n, named), m == n, MapLess(n, m, named))
    decreases MapWeight(m) + MapWeight(n)
  {
    if m != [] && n != [] {
      KeyTrichotomy(m[0].key, n[0].key);
      Trichotomy(m[0].value, n[0].value);
      MapTrichotomy(m[1..], n[1..], named);
      assert m == [m[0]] + m[1..] && n == [n[0]] + n[1..];
    }
  }

  lemma {:induction false} Transitive(a: Value, b: Value, c: Value)
    requires Valid(a) && Valid(b) && Valid(c)
    requires Less(a, b) && Less(b, c)
    ensures Less(a, c)
    decreases Weight(a) + Weight(b) + Weight(c)
  {
    if TypeRank(a) == TypeRank(b) == TypeRank(c) {
      match a
      case Str(s) =>
        if s.Some? {
          StrTransitive(s.value, b.str_.value, c.str_.value);
        }
      case Array(m) =>
        if |m| == |b.map_| == |c.map_| {
          MapTransitive(m, b.map_, c.map_, false);
        }
      case Object(m) =>
        if |m| == |b.map_| == |c.map_| {
          MapTransitive(m, b.map_, c.map_, true);
        }
      case _ =>
    }
  }

  /** The first entries of three maps are weakly ascending, so comparing their heads decides it or they agree. */
  lemma {:induction false} MapTransitive(m: seq<Entry>, n: seq<Entry>, o: seq<Entry>, named: bool)
    requires ValidMap(m, named) && ValidMap(n, named) && ValidMap(o, named)
    requires MapLess(m, n, named) && MapLess(n, o, named)
    ensures MapLess(m, o, named)
    decreases MapWeight(m) + MapWeight(n) + MapWeight(o)
  {
    if m != [] {
      HeadsDecide(m, n, named);
      HeadsDecide(n, o, named);
      HeadsDecide(m, o, named);
      if m[0] == n[0] == o[0] {
        MapTransitive(m[1..], n[1..], o[1..], named);
      } else if m[0] != n[0] && n[0] != o[0] {
        EntryTransitive(m[0], n[0], o[0]);
      }
    }
  }

  /** Order of two entries: by key, then by value. */
  ghost predicate EntryLess(e: Entry, f: Entry)
    requires Valid(e.value) && Valid(f.value)
  {
    KeyLess(e.key, f.key) || (e.key == f.key && Less(e.value, f.value))
  }

  lemma HeadsDecide(m: seq<Entry>, n: seq<Entry>, named: bool)
    requires ValidMap(m, named) && ValidMap(n, named) && m != [] && n != []
    ensures MapLess(m, n, named) <==>
              if m[0] == n[0] then MapLess(m[1..], n[1..], named) else EntryLess(m[0], n[0])
  {
    KeyTrichotomy(m[0].key, n[0].key);
    Trichotomy(m[0].value, n[0].value);
  }

  lemma {:induction false} EntryTransitive(e: Entry, f: Entry, g: Entry)
    requires Valid(e.value) && Valid(f.value) && Valid(g.value)
    requires EntryLess(e, f) && EntryLess(f, g)
    ensures EntryLess(e, g)
    decreases Weight(e.value) + Weight(f.value) + Weight(g.value) + 1
  {
    if KeyLess(e.key, f.key) && KeyLess(f.key, g.key) {
      KeyTransitive(e.key, f.key, g.key);
    } else if e.key == f.key == g.key {
      Transitive(e.value, f.value, g.value);
    }
  }

  lemma {:induction false} EqualIsIdentity(a: Value, b: Value)
    requires Valid(a) && Valid(b)
    ensures Equal(a, b) <==> a == b
    decreases Weight(a) + Weight(b)
  {
    if TypeRank(a) == TypeRank(b) {
      match a
      case Array(m) =>
        if |m| == |b.map_| {
          MapEqualIsIdentity(m, b.map_, false);
        }
      case Object(m) =>
        if |m| == |b.map_| {
          MapEqualIsIdentity(m, b.map_, true);
        }
      case _ =>
    }
  }

  lemma {:induction false} MapEqualIsIdentity(m: seq<Entry>, n: seq<Entry>, named: bool)
    requires ValidMap(m, named) && ValidMap(n, named) && |m| == |n|
    ensures MapEqual(m, n, named) <==> m == n
    decreases MapWeight(m) + MapWeight(n)
  {
    if m != [] {
      EqualIsIdentity(m[0].value, n[0].value);
      MapEqualIsIdentity(m[1..], n[1..], named);
      assert m == [m[0]] + m[1..] && n == [n[0]] + n[1..];
    }
  }

  /** operator< is a strict total order, and operator== is its incomparability. */
  lemma StrictTotalOrder(a: Value, b: Value, c: Value)
    requires Valid(a) && Valid(b) && Valid(c)
    ensures !Less(a, a)
    ensures Less(a, b) && Less(b, c) ==> Less(a, c)
    ensures a != b ==> Less(a, b) || Less(b, a)
    ensures Equal(a, b) <==> !Less(a, b) && !Less(b, a)
  {
    Trichotomy(a, a);
    Trichotomy(a, b);
    EqualIsIdentity(a, b);
    if Less(a, b) && Less(b, c) {
      Transitive(a, b, c);
    }
  }

  // ---------- which way the order runs ----------

  /** Strings are ordered by the first byte in which they differ, a string that ends there coming first. */
  lemma {:induction false} FirstByteDecides(s: Bytes, t: Bytes, i: nat)
    requires i <= |s| && i <= |t| && s[..i] == t[..i]
    ensures i == |s| < |t| ==> StrLess(s, t)
    ensures i < |s| && i < |t| && s[i] < t[i] ==> StrLess(s, t)
  {
    if i > 0 {
      assert s[0] == s[..i][0] == t[..i][0] == t[0];
      assert s[1..][..i - 1] == s[..i][1..] == t[..i][1..] == t[1..][..i - 1];
      FirstByteDecides(s[1..], t[1..], i - 1);
    }
  }

  /** Types are ordered null, int, uint, real, string, boolean, array, object; numbers by value, false before true, the
      null string first, and containers by the number of their entries. */
  lemma OrderOfKinds(a: Value, b: Value)
    requires Valid(a) && Valid(b)
    ensures a.Null? && !b.Null? ==> Less(a, b)
    ensures a.Int? && !(b.Null? || b.Int?) ==> Less(a, b)
    ensures a.UInt? && !(b.Null? || b.Int? || b.UInt?) ==> Less(a, b)
    ensures a.Real? && (b.Str? || b.Bool? || b.Array? || b.Object?) ==> Less(a, b)
    ensures a.Str? && (b.Bool? || b.Array? || b.Object?) ==> Less(a, b)
    ensures a.Bool? && (b.Array? || b.Object?) ==> Less(a, b)
    ensures a.Array? && b.Object? ==> Less(a, b)
    ensures a.Int? && b.Int? && a.int_ < b.int_ ==> Less(a, b)
    ensures a.UInt? && b.UInt? && a.uint_ < b.uint_ ==> Less(a, b)
    ensures a.Real? && b.Real? && a.real_ < b.real_ ==> Less(a, b)
    ensures a == Bool(false) && b == Bool(true) ==> Less(a, b)
    ensures a == Str(None) && b.Str? && b.str_.Some? ==> Less(a, b)
    ensures a.Str? && b.Str? && a.str_.Some? && b.str_.Some? && StrLess(a.str_.value, b.str_.value) ==> Less(a, b)
    ensures a.Array? && b.Array? && |a.map_| < |b.map_| ==> Less(a, b)
    ensures a.Object? && b.Object? && |a.map_| < |b.map_| ==> Less(a, b)
  {
  }

  /** Of two maps the first entry in which they differ decides, by its key and then by its value. */
  lemma {:induction false} FirstEntryDecides(m: seq<Entry>, n: seq<Entry>, named: bool, i: nat)
    requires ValidMap(m, named) && ValidMap(n, named) && i < |m| == |n| && m[..i] == n[..i] && m[i] != n[i]
    ensures Valid(m[i].value) && Valid(n[i].value)
    ensures MapLess(m, n, named) <==>
            KeyLess(m[i].key, n[i].key) || (m[i].key == n[i].key && Less(m[i].value, n[i].value))
  {
    HeadsDecide(m, n, named);
    if i > 0 {
      assert m[0] == m[..i][0] == n[..i][0] == n[0];
      assert m[1..][..i - 1] == m[..i][1..] == n[..i][1..] == n[1..][..i - 1];
      FirstEntryDecides(m[1..], n[1..], named, i - 1);
    }
  }
}
