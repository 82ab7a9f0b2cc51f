/** The JSON value the differ consumes (serde_json's `Value`), modelled with
    integer numbers and objects as association lists.  An object's member
    order is abstract: nothing below depends on it being sorted or being
    insertion order. */
module Json {
  import opened Wrappers

  datatype Value =
    | Null
    | Bool(b: bool)
    | Number(n: int)
    | String(s: string)
    | Array(items: seq<Value>)
    | Object(members: seq<Member>)

  datatype Member = Member(key: string, val: Value)

  const EmptyObject: Value := Object([])

  // ---------------------------------------------------------------------
  // Association lists
  // ---------------------------------------------------------------------

  predicate HasKey(ms: seq<Member>, k: string) {
    exists i :: 0 <= i < |ms| && ms[i].key == k
  }

  /** The keys in member order. */
  function Keys(ms: seq<Member>): (ks: seq<string>)
    ensures |ks| == |ms|
    ensures forall i :: 0 <= i < |ms| ==> ks[i] == ms[i].key
  {
    seq(|ms|, i requires 0 <= i < |ms| => ms[i].key)
  }

  /** Keys are unique: the invariant every serde `Map` has. */
  predicate UniqueKeys(ms: seq<Member>) {
    forall i, j :: 0 <= i < j < |ms| ==> ms[i].key != ms[j].key
  }

  /** Lookup of a key (the first binding; the only one when keys are unique). */
  function Get(ms: seq<Member>, k: string): (r: Option<Value>)
    ensures r.None? <==> !HasKey(ms, k)
    ensures r.Some? ==> exists i :: 0 <= i < |ms| && ms[i] == Member(k, r.value)
  {
    if ms == [] then None
    else if ms[0].key == k then Some(ms[0].val)
    else
      var r := Get(ms[1..], k);
      assert r.Some? ==> exists i :: 0 <= i < |ms[1..]| && ms[1..][i] == Member(k, r.value);
      assert HasKey(ms[1..], k) ==> HasKey(ms, k) by {
        if HasKey(ms[1..], k) {
          var i :| 0 <= i < |ms[1..]| && ms[1..][i].key == k;
          assert ms[i + 1].key == k;
        }
      }
      r
  }

  /** The association list without any binding of `k` (Map::remove). */
  function Without(ms: seq<Member>, k: string): (r: seq<Member>)
    ensures !HasKey(r, k)
    ensures forall i :: 0 <= i < |r| ==> r[i] in ms
    ensures MembersSize(r) <= MembersSize(ms)
  {
    if ms == [] then []
    else if ms[0].key == k then Without(ms[1..], k)
    else [ms[0]] + Without(ms[1..], k)
  }

  /** Map::insert: a present key has its value replaced where it stands,
      an absent key is appended. */
  function Insert(ms: seq<Member>, k: string, v: Value): (r: seq<Member>)
    ensures |r| == if HasKey(ms, k) then |ms| else |ms| + 1
  {
    if ms == [] then [Member(k, v)]
    else if ms[0].key == k then [Member(k, v)] + ms[1..]
    else
      assert HasKey(ms, k) <==> HasKey(ms[1..], k) by {
        if HasKey(ms, k) {
          var i :| 0 <= i < |ms| && ms[i].key == k;
          assert ms[1..][i - 1].key == k;
        }
        if HasKey(ms[1..], k) {
          var i :| 0 <= i < |ms[1..]| && ms[1..][i].key == k;
          assert ms[i + 1].key == k;
        }
      }
      [ms[0]] + Insert(ms[1..], k, v)
  }

  lemma {:induction false} InsertGet(ms: seq<Member>, k: string, v: Value, k': string)
    ensures Get(Insert(ms, k, v), k') == if k' == k then Some(v) else Get(ms, k')
  {
    if ms != [] && ms[0].key != k {
      InsertGet(ms[1..], k, v, k');
    }
  }

  /** Inserting a present key changes only that member, in place. */
  lemma {:induction false} InsertPresent(ms: seq<Member>, k: string, v: Value)
    requires UniqueKeys(ms) && HasKey(ms, k)
    ensures |Insert(ms, k, v)| == |ms|
    ensures forall i :: 0 <= i < |ms| ==>
      Insert(ms, k, v)[i] == if ms[i].key == k then Member(k, v) else ms[i]
  {
    if ms[0].key != k {
      var i :| 0 <= i < |ms| && ms[i].key == k;
      assert ms[1..][i - 1].key == k;
      assert UniqueKeys(ms[1..]) by {
        forall a, b | 0 <= a < b < |ms[1..]| ensures ms[1..][a].key != ms[1..][b].key {
          assert ms[1..][a] == ms[a + 1] && ms[1..][b] == ms[b + 1];
        }
      }
      InsertPresent(ms[1..], k, v);
      var r := Insert(ms, k, v);
      var t := Insert(ms[1..], k, v);
      assert r == [ms[0]] + t;
      forall j | 0 <= j < |ms| ensures r[j] == if ms[j].key == k then Member(k, v) else ms[j] {
        if j > 0 {
          assert r[j] == t[j - 1] && ms[1..][j - 1] == ms[j];
        }
      }
    }
  }

  lemma InsertPresentKeys(ms: seq<Member>, k: string, v: Value)
    requires UniqueKeys(ms) && HasKey(ms, k)
    ensures Keys(Insert(ms, k, v)) == Keys(ms)
  {
    InsertPresent(ms, k, v);
  }

  lemma {:induction false} InsertAbsent(ms: seq<Member>, k: string, v: Value)
    requires !HasKey(ms, k)
    ensures Insert(ms, k, v) == ms + [Member(k, v)]
  {
    if ms != [] {
      assert ms[0].key != k;
      forall i | 0 <= i < |ms[1..]| ensures ms[1..][i].key != k {
        assert ms[1..][i] == ms[i + 1];
      }
      InsertAbsent(ms[1..], k, v);
      assert [ms[0]] + (ms[1..] + [Member(k, v)]) == ms + [Member(k, v)];
    }
  }

  lemma {:induction false} GetUnique(ms: seq<Member>, i: nat)
    requires UniqueKeys(ms) && i < |ms|
    ensures Get(ms, ms[i].key) == Some(ms[i].val)
  {
    if i > 0 {
      assert ms[0].key != ms[i].key;
      assert ms[1..][i - 1] == ms[i];
      GetUnique(ms[1..], i - 1);
    }
  }

  lemma {:induction false} GetWithout(ms: seq<Member>, k: string, k': string)
    requires k' != k
    ensures Get(Without(ms, k), k') == Get(ms, k')
  {
    if ms != [] {
      GetWithout(ms[1..], k, k');
    }
  }

  lemma {:induction false} InsertUnique(ms: seq<Member>, k: string, v: Value)
    requires UniqueKeys(ms)
    ensures UniqueKeys(Insert(ms, k, v))
  {
    if HasKey(ms, k) {
      var r := Insert(ms, k, v);
      InsertPresent(ms, k, v);
    } else {
      var r := Insert(ms, k, v);
      InsertAbsent(ms, k, v);
      forall i, j | 0 <= i < j < |r| ensures r[i].key != r[j].key {
        if j == |ms| {
          assert r[i] == ms[i];
        } else {
          assert r[i] == ms[i] && r[j] == ms[j];
        }
      }
    }
  }

  /** The members of `bm` whose key is not a key of `am`, in `bm`'s order. */
  function Unmatched(bm: seq<Member>, am: seq<Member>): (r: seq<Member>)
    ensures forall i :: 0 <= i < |r| ==> r[i] in bm && !HasKey(am, r[i].key)
  {
    if bm == [] then []
    else if HasKey(am, bm[0].key) then Unmatched(bm[1..], am)
    else [bm[0]] + Unmatched(bm[1..], am)
  }

  lemma {:induction false} UnmatchedNothing(bm: seq<Member>)
    ensures Unmatched(bm, []) == bm
  {
    if bm != [] {
      UnmatchedNothing(bm[1..]);
    }
  }

  lemma {:induction false} UnmatchedAll(ms: seq<Member>)
    ensures Unmatched(ms, ms) == []
  {
    UnmatchedSuffix(ms, ms);
  }

  lemma {:induction false} UnmatchedSuffix(bm: seq<Member>, am: seq<Member>)
    requires forall i :: 0 <= i < |bm| ==> HasKey(am, bm[i].key)
    ensures Unmatched(bm, am) == []
  {
    if bm != [] {
      assert HasKey(am, bm[0].key);
      UnmatchedSuffix(bm[1..], am);
    }
  }

  /** Removing `k` and then the keys of `am` leaves what removing the keys
      of `[k] + am` leaves. */
  lemma {:induction false} UnmatchedWithout(bm: seq<Member>, m: Member, am: seq<Member>)
    ensures Unmatched(Without(bm, m.key), am) == Unmatched(bm, [m] + am)
  {
    if bm != [] {
      UnmatchedWithout(bm[1..], m, am);
      var full := [m] + am;
      assert HasKey(full, bm[0].key) <==> bm[0].key == m.key || HasKey(am, bm[0].key) by {
        assert full[0] == m;
        if HasKey(am, bm[0].key) {
          var i :| 0 <= i < |am| && am[i].key == bm[0].key;
          assert full[i + 1] == am[i];
        }
        if HasKey(full, bm[0].key) && bm[0].key != m.key {
          var i :| 0 <= i < |full| && full[i].key == bm[0].key;
          assert am[i - 1] == full[i];
        }
      }
    }
  }

  // ---------------------------------------------------------------------
  // Well-formedness and equality
  // ---------------------------------------------------------------------

  /** Every object in the tree has unique keys. */
  predicate WellFormed(v: Value) {
    match v
    case Array(items) => forall i :: 0 <= i < |items| ==> WellFormed(items[i])
    case Object(ms) => UniqueKeys(ms) && forall i :: 0 <= i < |ms| ==> WellFormed(ms[i].val)
    case _ => true
  }

  /** serde_json's `==` on values: arrays element by element, objects as
      maps (same number of entries, and each key of one bound in the other
      to an equal value), regardless of member order. */
  predicate JsonEq(a: Value, b: Value)
    ensures JsonEq(a, b) ==> (a.Object? <==> b.Object?) && (a.Array? <==> b.Array?)
    decreases a
  {
    match a
    case Array(xs) => b.Array? && |xs| == |b.items| && ItemsEq(xs, b.items)
    case Object(am) => b.Object? && |am| == |b.members| && MembersIn(am, b.members)
    case _ => a == b
  }

  predicate ItemsEq(xs: seq<Value>, ys: seq<Value>)
    requires |xs| == |ys|
    decreases xs
  {
    xs == [] || (JsonEq(xs[0], ys[0]) && ItemsEq(xs[1..], ys[1..]))
  }

  predicate MembersIn(am: seq<Member>, bm: seq<Member>)
    decreases am
  {
    am == [] ||
    (var g := Get(bm, am[0].key); g.Some? && JsonEq(am[0].val, g.value) && MembersIn(am[1..], bm))
  }

  /** Deep equality is reflexive on well-formed values. */
  lemma {:induction false} JsonEqRefl(v: Value)
    requires WellFormed(v)
    ensures JsonEq(v, v)
    decreases v
  {
    match v
    case Array(xs) => ItemsEqRefl(xs);
    case Object(ms) => MembersInSelf(ms, 0);
    case _ =>
  }

  /** Member order does not matter: an object is equal to any object with
      as many members and the same lookups. */
  lemma JsonEqReordered(ms: seq<Member>, ns: seq<Member>)
    requires WellFormed(Object(ms))
    requires |ns| == |ms|
    requires forall k :: Get(ns, k) == Get(ms, k)
    ensures JsonEq(Object(ms), Object(ns))
  {
    MembersInReordered(ms, ns, 0);
  }

  lemma {:induction false} MembersInReordered(ms: seq<Member>, ns: seq<Member>, i: nat)
    requires UniqueKeys(ms) && forall j :: 0 <= j < |ms| ==> WellFormed(ms[j].val)
    requires forall k :: Get(ns, k) == Get(ms, k)
    requires i <= |ms|
    ensures MembersIn(ms[i..], ns)
    decreases |ms| - i
  {
    if i < |ms| {
      GetUnique(ms, i);
      assert Get(ns, ms[i].key) == Some(ms[i].val);
      JsonEqRefl(ms[i].val);
      MembersInReordered(ms, ns, i + 1);
      assert ms[i..][1..] == ms[i + 1..];
    }
  }

  lemma {:induction false} ItemsEqRefl(xs: seq<Value>)
    requires forall i :: 0 <= i < |xs| ==> WellFormed(xs[i])
    ensures ItemsEq(xs, xs)
    decreases xs
  {
    if xs != [] {
      JsonEqRefl(xs[0]);
      assert forall i :: 0 <= i < |xs[1..]| ==> xs[1..][i] == xs[i + 1];
      ItemsEqRefl(xs[1..]);
    }
  }

  lemma {:induction false} MembersInSelf(ms: seq<Member>, i: nat)
    requires UniqueKeys(ms) && forall j :: 0 <= j < |ms| ==> WellFormed(ms[j].val)
    requires i <= |ms|
    ensures MembersIn(ms[i..], ms)
    decreases ms, |ms| - i
  {
    if i < |ms| {
      GetUnique(ms, i);
      JsonEqRefl(ms[i].val);
      MembersInSelf(ms, i + 1);
      assert ms[i..][1..] == ms[i + 1..];
    }
  }

  // ---------------------------------------------------------------------
  // Objects as a shape
  // ---------------------------------------------------------------------

  predicate AllObjects(vs: seq<Value>) {
    forall i :: 0 <= i < |vs| ==> vs[i].Object?
  }

  // ---------------------------------------------------------------------
  // The serializer behind `{}` formatting (compact, no string escaping)
  // ---------------------------------------------------------------------

  function Digit(d: nat): char
    requires d < 10
  {
    "0123456789"[d]
  }

  function NatText(n: nat): (s: string)
    ensures |s| >= 1
    ensures forall i :: 0 <= i < |s| ==> '0' <= s[i] <= '9'
  {
    if n < 10 then [Digit(n)] else NatText(n / 10) + [Digit(n % 10)]
  }

  function IntText(n: int): string {
    if n < 0 then "-" + NatText(-n) else NatText(n)
  }

  function Quoted(s: string): string {
    "\"" + s + "\""
  }

  /** The compact textual form of a value. */
  function Text(v: Value): string
    decreases v
  {
    match v
    case Null => "null"
    case Bool(b) => if b then "true" else "false"
    case Number(n) => IntText(n)
    case String(s) => Quoted(s)
    case Array(items) => "[" + ItemsText(items) + "]"
    case Object(ms) => "{" + MembersText(ms) + "}"
  }

  function ItemsText(vs: seq<Value>): string
    decreases vs
  {
    if vs == [] then ""
    else if |vs| == 1 then Text(vs[0])
    else Text(vs[0]) + "," + ItemsText(vs[1..])
  }

  function MembersText(ms: seq<Member>): string
    decreases ms
  {
    if ms == [] then ""
    else
      var m := Quoted(ms[0].key) + ":" + Text(ms[0].val);
      if |ms| == 1 then m else m + "," + MembersText(ms[1..])
  }

  // ---------------------------------------------------------------------
  // Sizes, the termination measure of the recursive diff
  // ---------------------------------------------------------------------

  function Size(v: Value): (n: nat)
    ensures n >= 1
    decreases v
  {
    match v
    case Array(items) => 1 + ItemsSize(items)
    case Object(ms) => 1 + MembersSize(ms)
    case _ => 1
  }

  /** Each element weighs two more than its own size, so that pairing an
      element with an absent partner (an empty object) stays within the
      array's size. */
  function ItemsSize(vs: seq<Value>): nat
    decreases vs
  {
    if vs == [] then 0 else 2 + Size(vs[0]) + ItemsSize(vs[1..])
  }

  function MembersSize(ms: seq<Member>): nat
    decreases ms
  {
    if ms == [] then 0 else 1 + Size(ms[0].val) + MembersSize(ms[1..])
  }

  lemma {:induction false} GetSmaller(ms: seq<Member>, k: string)
    requires Get(ms, k).Some?
    ensures Size(Get(ms, k).value) < MembersSize(ms)
  {
    if ms[0].key != k {
      GetSmaller(ms[1..], k);
    }
  }

  lemma {:induction false} MemberSmaller(ms: seq<Member>)
    requires ms != []
    ensures Size(ms[0].val) < MembersSize(ms)
    ensures MembersSize(ms[1..]) < MembersSize(ms)
  {
  }
  // ---------------------------------------------------------------------
  // Nesting height
  // ---------------------------------------------------------------------

  /** How many arrays and objects nest inside each other at the deepest
      point: 0 for a scalar. */
  function Height(v: Value): nat
    decreases v
  {
    match v
    case Array(items) => 1 + ItemsHeight(items)
    case Object(ms) => 1 + MembersHeight(ms)
    case _ => 0
  }

  function ItemsHeight(vs: seq<Value>): nat
    decreases vs
  {
    if vs == [] then 0
    else
      var h, rest := Height(vs[0]), ItemsHeight(vs[1..]);
      if h < rest then rest else h
  }

  function MembersHeight(ms: seq<Member>): nat
    decreases ms
  {
    if ms == [] then 0
    else
      var h, rest := Height(ms[0].val), MembersHeight(ms[1..]);
      if h < rest then rest else h
  }

  lemma {:induction false} GetHeight(ms: seq<Member>, k: string)
    requires Get(ms, k).Some?
    ensures Height(Get(ms, k).value) <= MembersHeight(ms)
  {
    if ms[0].key != k {
      GetHeight(ms[1..], k);
    }
  }

  lemma {:induction false} WithoutHeight(ms: seq<Member>, k: string)
    ensures MembersHeight(Without(ms, k)) <= MembersHeight(ms)
  {
    if ms != [] {
      WithoutHeight(ms[1..], k);
      if ms[0].key != k {
        assert ([ms[0]] + Without(ms[1..], k))[1..] == Without(ms[1..], k);
      }
    }
  }
}
