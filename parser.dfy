/** The diff engine (src/parser.rs): `diff` dispatches on the shapes of
    its arguments, `diff_obj` compares two objects key by key and recurses
    into nested objects and arrays, and `diff_array` pairs arrays of
    objects by position and collapses any other array to one change line. */
module Parser {
  import opened Wrappers
  import opened Json
  import opened Lines
  import opened Util

  /** The one error: the two values have different shapes. */
  datatype DiffError = TypeMismatch

  /** A marker-'x' line with no text means "this key is unchanged"; it is dropped
      before the lines leave `diff_obj`. */
  const Sentinel: Line := NewLine('x', "")

  /** The quoted key and a colon that start every per-key line. */
  function KeyLabel(k: string): string {
    "\"" + k + "\": "
  }

  function RemovedLine(k: string, v: Value): Line {
    NewLine('-', KeyLabel(k) + Text(v))
  }

  function AddedLine(k: string, v: Value): Line {
    NewLine('+', KeyLabel(k) + Text(v))
  }

  function ChangedLine(k: string, va: Value, vb: Value): Line {
    NewLine('~', KeyLabel(k) + Text(va) + " => " + Text(vb))
  }

  /** One '+' line per member, in order. */
  function AddedLines(ms: seq<Member>): (r: seq<Line>)
    ensures |r| == |ms|
    ensures forall i :: 0 <= i < |ms| ==> r[i] == Line('+', 0, KeyLabel(ms[i].key) + Text(ms[i].val))
  {
    seq(|ms|, i requires 0 <= i < |ms| => AddedLine(ms[i].key, ms[i].val))
  }

  /** The filter on the marker: removes the sentinels and keeps every
      other line in order. */
  function DropSentinels(ls: seq<Line>): (r: seq<Line>)
    ensures forall i :: 0 <= i < |r| ==> r[i].marker != 'x'
    ensures (forall i :: 0 <= i < |ls| ==> ls[i].marker in "+-~.x") ==> VisibleMarkers(r)
  {
    if ls == [] then []
    else
      var rest := DropSentinels(ls[1..]);
      assert (forall i :: 0 <= i < |ls| ==> ls[i].marker in "+-~.x") ==>
             (forall i :: 0 <= i < |ls[1..]| ==> ls[1..][i].marker in "+-~.x");
      if ls[0].marker == 'x' then rest
      else
        assert ls == [ls[0]] + ls[1..];
        [ls[0]] + rest
  }

  /** Without sentinels the filter keeps everything. */
  lemma {:induction false} DropSentinelsKeepsAll(ls: seq<Line>)
    requires forall i :: 0 <= i < |ls| ==> ls[i].marker != 'x'
    ensures DropSentinels(ls) == ls
  {
    if ls != [] {
      assert forall i :: 0 <= i < |ls[1..]| ==> ls[1..][i] == ls[i + 1];
      DropSentinelsKeepsAll(ls[1..]);
      assert ls == [ls[0]] + ls[1..];
    }
  }

  /** The filter keeps exactly the lines that are not sentinels. */
  lemma {:induction false} DropSentinelsMembers(ls: seq<Line>)
    ensures forall l :: l in DropSentinels(ls) <==> l in ls && l.marker != 'x'
  {
    if ls != [] {
      DropSentinelsMembers(ls[1..]);
      assert ls == [ls[0]] + ls[1..];
    }
  }

  lemma ConcatAssoc<T>(a: seq<T>, b: seq<T>, c: seq<T>)
    ensures a + (b + c) == (a + b) + c
  {
  }

  /** One step of the filter. */
  lemma DropSentinelsCons(h: Line, t: seq<Line>)
    ensures DropSentinels([h] + t) == if h.marker == 'x' then DropSentinels(t) else [h] + DropSentinels(t)
  {
    assert ([h] + t)[0] == h && ([h] + t)[1..] == t;
  }

  /** The filter works line by line, so it keeps the order of what it
      keeps: filtering a concatenation concatenates the filtered parts. */
  lemma {:induction false} DropSentinelsAppend(xs: seq<Line>, ys: seq<Line>)
    ensures DropSentinels(xs + ys) == DropSentinels(xs) + DropSentinels(ys)
  {
    if xs == [] {
      assert xs + ys == ys;
    } else {
      var h, t := xs[0], xs[1..];
      DropSentinelsAppend(t, ys);
      assert xs == [h] + t;
      ConcatAssoc([h], t, ys);
      DropSentinelsCons(h, t);
      DropSentinelsCons(h, t + ys);
      if h.marker != 'x' {
        ConcatAssoc([h], DropSentinels(t), DropSentinels(ys));
      }
    }
  }



  /** Dropping sentinels never makes a line deeper. */
  lemma {:induction false} DropSentinelsDepth(ls: seq<Line>, h: nat)
    requires DepthBelow(ls, h)
    ensures DepthBelow(DropSentinels(ls), h)
  {
    if ls != [] {
      DropSentinelsDepth(ls[1..], h);
    }
  }

  // ---------------------------------------------------------------------
  // Termination measures of the mutual recursion below
  // ---------------------------------------------------------------------

  /** Size of b's value for a key, plus one; nothing when the key is absent. */
  function FoundSize(found: Option<Value>): nat {
    match found
    case Some(v) => Size(v) + 1
    case None => 0
  }

  /** An absent side stands for the empty object, of size 1. */
  function SideSize(side: Option<Value>): nat {
    match side
    case Some(v) => Size(v)
    case None => 1
  }

  function PairSize(p: (Option<Value>, Option<Value>)): nat {
    1 + SideSize(p.0) + SideSize(p.1)
  }

  function PairsSize(ps: seq<(Option<Value>, Option<Value>)>): nat {
    if ps == [] then 0 else PairSize(ps[0]) + PairsSize(ps[1..])
  }

  lemma {:induction false} ZipSize(xs: seq<Value>, ys: seq<Value>)
    ensures PairsSize(Zip(xs, ys)) <= ItemsSize(xs) + ItemsSize(ys)
    decreases |xs| + |ys|
  {
    if !(xs == [] && ys == []) {
      ZipSize(Advance(xs), Advance(ys));
      assert Zip(xs, ys) == [(Next(xs), Next(ys))] + Zip(Advance(xs), Advance(ys));
      assert Zip(xs, ys)[1..] == Zip(Advance(xs), Advance(ys));
    }
  }

  lemma {:induction false} FoundSmaller(ms: seq<Member>, k: string)
    ensures FoundSize(Get(ms, k)) <= MembersSize(ms)
  {
    if Get(ms, k).Some? {
      GetSmaller(ms, k);
    }
  }

  /** Nesting heights of the same arguments, the bound on line depths. */
  function FoundHeight(found: Option<Value>): nat {
    match found
    case Some(v) => Height(v)
    case None => 0
  }

  /** An absent side stands for the empty object, of height 1. */
  function SideHeight(side: Option<Value>): nat {
    match side
    case Some(v) => Height(v)
    case None => 1
  }

  function PairHeight(p: (Option<Value>, Option<Value>)): nat {
    Max(SideHeight(p.0), SideHeight(p.1))
  }

  function PairsHeight(ps: seq<(Option<Value>, Option<Value>)>): nat {
    if ps == [] then 0 else Max(PairHeight(ps[0]), PairsHeight(ps[1..]))
  }

  lemma {:induction false} FoundLower(ms: seq<Member>, k: string)
    ensures FoundHeight(Get(ms, k)) <= MembersHeight(ms)
  {
    if Get(ms, k).Some? {
      GetHeight(ms, k);
    }
  }

  lemma {:induction false} ZipHeight(xs: seq<Value>, ys: seq<Value>)
    requires AllObjects(xs) && AllObjects(ys)
    ensures PairsHeight(Zip(xs, ys)) <= Max(ItemsHeight(xs), ItemsHeight(ys))
    decreases |xs| + |ys|
  {
    if !(xs == [] && ys == []) {
      assert AllObjects(Advance(xs)) by {
        forall i | 0 <= i < |Advance(xs)| ensures Advance(xs)[i] == xs[i + 1] { }
      }
      assert AllObjects(Advance(ys)) by {
        forall i | 0 <= i < |Advance(ys)| ensures Advance(ys)[i] == ys[i + 1] { }
      }
      ZipHeight(Advance(xs), Advance(ys));
      assert Zip(xs, ys) == [(Next(xs), Next(ys))] + Zip(Advance(xs), Advance(ys));
      assert Zip(xs, ys)[1..] == Zip(Advance(xs), Advance(ys));
    }
  }

  // ---------------------------------------------------------------------
  // The engine
  // ---------------------------------------------------------------------

  /** `diff`: objects with objects, arrays with arrays, anything else is a
      type mismatch.  Every line of a result carries a visible marker: the
      sentinel never escapes. */
  function Diff(a: Value, b: Value): (r: Result<seq<Line>, DiffError>)
    ensures r.Ok? <==> (a.Object? && b.Object?) || (a.Array? && b.Array?)
    ensures r.Ok? ==> VisibleMarkers(r.value)
    ensures r.Ok? ==> DepthBelow(r.value, Max(Height(a), Height(b)))
    decreases Size(a) + Size(b), 0
  {
    match (a, b)
    case (Object(am), Object(bm)) => Ok(ObjectDiff(am, bm))
    case (Array(xs), Array(ys)) => Ok(ArrayDiff(xs, ys))
    case _ => Err(TypeMismatch)
  }

  /** `diff_obj`: the lines for a's keys, then a '+' line for every member
      of b none of a's keys consumed. */
  function ObjectDiff(am: seq<Member>, bm: seq<Member>): (r: seq<Line>)
    ensures VisibleMarkers(r)
    ensures DepthBelow(r, 1 + Max(MembersHeight(am), MembersHeight(bm)))
    decreases MembersSize(am) + MembersSize(bm), 3
  {
    var w := ObjWalk(am, bm);
    w.0 + AddedLines(w.1)
  }

  /** The `flat_map` over a's members with `b2.remove(key)` in its closure:
      the filtered lines, and what is left of b2. */
  function ObjWalk(am: seq<Member>, b2: seq<Member>): (r: (seq<Line>, seq<Member>))
    ensures VisibleMarkers(r.0)
    ensures DepthBelow(r.0, 1 + Max(MembersHeight(am), MembersHeight(b2)))
    decreases MembersSize(am) + MembersSize(b2), 2
  {
    if am == [] then ([], b2)
    else
      var k := am[0].key;
      var found := Get(b2, k);
      MemberSmaller(am);
      FoundSmaller(b2, k);
      FoundLower(b2, k);
      WithoutHeight(b2, k);
      var block := KeyLines(k, am[0].val, found);
      var rest := ObjWalk(am[1..], Without(b2, k));
      DropSentinelsDepth(block, 1 + Max(Height(am[0].val), FoundHeight(found)));
      (DropSentinels(block) + rest.0, rest.1)
  }

  /** The closure's match on the value b2 held for `k`. */
  function KeyLines(k: string, va: Value, found: Option<Value>): (r: seq<Line>)
    ensures forall i :: 0 <= i < |r| ==> r[i].marker in "+-~.x"
    ensures DepthBelow(r, 1 + Max(Height(va), FoundHeight(found)))
    decreases Size(va) + FoundSize(found), 1
  {
    match found
    case Some(vb) =>
      if JsonEq(va, vb) then [Sentinel]
      else if va.Object? && vb.Object? then
        var nested := Diff(va, vb);
        WrappedMarkers(nested.value, KeyLabel(k), ObjectKind);
        WrappedDepth(nested.value, KeyLabel(k), ObjectKind, Max(Height(va), Height(vb)));
        Wrapped(nested.value, KeyLabel(k), ObjectKind)
      else if va.Array? && vb.Array? then
        var nested := Diff(va, vb);
        WrappedMarkers(nested.value, KeyLabel(k), ArrayKind);
        WrappedDepth(nested.value, KeyLabel(k), ArrayKind, Max(Height(va), Height(vb)));
        Wrapped(nested.value, KeyLabel(k), ArrayKind)
      else [ChangedLine(k, va, vb)]
    case None => [RemovedLine(k, va)]
  }

  /** Every side of every pair that is present is an object. */
  predicate ObjectPairs(ps: seq<(Option<Value>, Option<Value>)>) {
    forall i :: 0 <= i < |ps| ==>
      (ps[i].0.Some? ==> ps[i].0.value.Object?) && (ps[i].1.Some? ==> ps[i].1.value.Object?)
  }

  /** `diff_array`: arrays made only of objects are paired by position;
      any other pair of arrays becomes one '~' line of their texts. */
  function ArrayDiff(xs: seq<Value>, ys: seq<Value>): (r: seq<Line>)
    ensures VisibleMarkers(r)
    ensures DepthBelow(r, 1 + Max(ItemsHeight(xs), ItemsHeight(ys)))
    decreases ItemsSize(xs) + ItemsSize(ys), 3
  {
    if AllObjects(xs + ys) then
      assert forall i :: 0 <= i < |xs| ==> (xs + ys)[i] == xs[i];
      assert forall i :: 0 <= i < |ys| ==> (xs + ys)[|xs| + i] == ys[i];
      ZipSize(xs, ys);
      ZipHeight(xs, ys);
      ZipObjectPairs(xs, ys, 0);
      assert Zip(xs, ys)[0..] == Zip(xs, ys);
      PairBlocks(Zip(xs, ys))
    else [NewLine('~', Text(Array(xs)) + " => " + Text(Array(ys)))]
  }

  /** The `flat_map` over the zipped pairs. */
  function PairBlocks(ps: seq<(Option<Value>, Option<Value>)>): (r: seq<Line>)
    requires ObjectPairs(ps)
    ensures VisibleMarkers(r)
    ensures DepthBelow(r, 1 + PairsHeight(ps))
    decreases PairsSize(ps), 2
  {
    if ps == [] then []
    else
      assert ObjectPairs(ps[1..]) by {
        forall i | 0 <= i < |ps[1..]| ensures ps[1..][i] == ps[i + 1] { }
      }
      PairBlock(ps[0]) + PairBlocks(ps[1..])
  }

  /** One pair: both objects diffed, an absent side replaced by `{}`, the
      diff wrapped in braces with an empty label. */
  function PairBlock(p: (Option<Value>, Option<Value>)): (r: seq<Line>)
    requires (p.0.Some? ==> p.0.value.Object?) && (p.1.Some? ==> p.1.value.Object?)
    ensures VisibleMarkers(r)
    ensures DepthBelow(r, 1 + PairHeight(p))
    decreases PairSize(p), 1
  {
    match p
    case (Some(x), Some(y)) =>
      WrappedMarkers(Diff(x, y).value, "", ObjectKind);
      WrappedDepth(Diff(x, y).value, "", ObjectKind, Max(Height(x), Height(y)));
      Wrapped(Diff(x, y).value, "", ObjectKind)
    case (Some(x), None) =>
      WrappedMarkers(Diff(x, EmptyObject).value, "", ObjectKind);
      WrappedDepth(Diff(x, EmptyObject).value, "", ObjectKind, Max(Height(x), Height(EmptyObject)));
      Wrapped(Diff(x, EmptyObject).value, "", ObjectKind)
    case (None, Some(y)) =>
      WrappedMarkers(Diff(EmptyObject, y).value, "", ObjectKind);
      WrappedDepth(Diff(EmptyObject, y).value, "", ObjectKind, Max(Height(EmptyObject), Height(y)));
      Wrapped(Diff(EmptyObject, y).value, "", ObjectKind)
    case (None, None) => []
  }

  // ---------------------------------------------------------------------
  // diff_obj as the source writes it
  // ---------------------------------------------------------------------

  /** Clone b into b2; for each of a's members remove its key from b2 and
      emit the lines the closure's match gives, dropping sentinels; then
      push a '+' line for each member left in b2. */
  method DiffObj(a: seq<Member>, b: seq<Member>) returns (result: seq<Line>)
    ensures result == ObjectDiff(a, b)
  {
    var b2;
    result, b2 := WalkMembers(a, b);
    result := PushAdded(result, b2);
  }

  /** The `flat_map`/`filter`/`collect` chain: the kept lines and what is
      left of b2. */
  method WalkMembers(a: seq<Member>, b: seq<Member>) returns (result: seq<Line>, b2: seq<Member>)
    ensures result == ObjWalk(a, b).0
    ensures b2 == ObjWalk(a, b).1
  {
    b2 := b;
    result := [];
    assert a[0..] == a;
    for i := 0 to |a|
      invariant ObjWalk(a, b).0 == result + ObjWalk(a[i..], b2).0
      invariant ObjWalk(a, b).1 == ObjWalk(a[i..], b2).1
    {
      var key, val := a[i].key, a[i].val;
      ghost var rest := ObjWalk(a[i + 1..], Without(b2, key));
      ObjWalkStep(a, i, b2);
      var removed := Get(b2, key);
      b2 := Without(b2, key);
      var block := MemberLines(key, val, removed);
      ghost var before := result;
      result := result + DropSentinels(block);
      assert before + (DropSentinels(block) + rest.0) == result + rest.0;
    }
    assert a[|a|..] == [];
  }

  /** One step of the walk: the block of a's member i, then the walk of
      the rest against b2 without that key. */
  lemma ObjWalkStep(a: seq<Member>, i: nat, b2: seq<Member>)
    requires i < |a|
    ensures var rest := ObjWalk(a[i + 1..], Without(b2, a[i].key));
      ObjWalk(a[i..], b2) == (DropSentinels(KeyLines(a[i].key, a[i].val, Get(b2, a[i].key))) + rest.0, rest.1)
  {
    assert a[i..][0] == a[i] && a[i..][1..] == a[i + 1..];
  }

  /** The `for` loop pushing a '+' line per member left in b2. */
  method PushAdded(walked: seq<Line>, b2: seq<Member>) returns (result: seq<Line>)
    ensures result == walked + AddedLines(b2)
  {
    result := walked;
    for j := 0 to |b2|
      invariant result == walked + AddedLines(b2[..j])
    {
      assert AddedLines(b2[..j + 1]) == AddedLines(b2[..j]) + [AddedLine(b2[j].key, b2[j].val)];
      result := result + [AddedLine(b2[j].key, b2[j].val)];
    }
    assert b2[..|b2|] == b2;
  }

  /** The body of the closure in `diff_obj`, for the value `removed` that
      `b2.remove(key)` returned. */
  method MemberLines(key: string, val: Value, removed: Option<Value>) returns (block: seq<Line>)
    ensures block == KeyLines(key, val, removed)
  {
    match removed {
      case Some(bval) =>
        if JsonEq(val, bval) {
          block := [Sentinel];
        } else if val.Object? && bval.Object? {
          var nested := Diff(val, bval);
          block := Wrap(nested.value, KeyLabel(key), ObjectKind);
        } else if val.Array? && bval.Array? {
          var nested := Diff(val, bval);
          block := Wrap(nested.value, KeyLabel(key), ArrayKind);
        } else {
          block := [ChangedLine(key, val, bval)];
        }
      case None =>
        block := [RemovedLine(key, val)];
    }
  }

  // ---------------------------------------------------------------------
  // The shape of an object diff
  // ---------------------------------------------------------------------

  /** The lines one member of a contributes against b. */
  function KeyBlock(m: Member, bm: seq<Member>): seq<Line> {
    DropSentinels(KeyLines(m.key, m.val, Get(bm, m.key)))
  }

  function KeyBlocks(am: seq<Member>, bm: seq<Member>): seq<Line> {
    if am == [] then [] else KeyBlock(am[0], bm) + KeyBlocks(am[1..], bm)
  }

  lemma UniqueTail(ms: seq<Member>)
    requires ms != [] && UniqueKeys(ms)
    ensures UniqueKeys(ms[1..])
    ensures !HasKey(ms[1..], ms[0].key)
  {
    forall i, j | 0 <= i < j < |ms[1..]| ensures ms[1..][i].key != ms[1..][j].key {
      assert ms[1..][i] == ms[i + 1] && ms[1..][j] == ms[j + 1];
    }
    forall i | 0 <= i < |ms[1..]| ensures ms[1..][i].key != ms[0].key {
      assert ms[1..][i] == ms[i + 1];
    }
  }

  /** Removing a key none of am's keys equals does not change their blocks. */
  lemma {:induction false} KeyBlocksWithout(am: seq<Member>, bm: seq<Member>, k: string)
    requires !HasKey(am, k)
    ensures KeyBlocks(am, Without(bm, k)) == KeyBlocks(am, bm)
  {
    if am != [] {
      assert am[0].key != k;
      GetWithout(bm, k, am[0].key);
      assert !HasKey(am[1..], k) by {
        forall i | 0 <= i < |am[1..]| ensures am[1..][i].key != k {
          assert am[1..][i] == am[i + 1];
        }
      }
      KeyBlocksWithout(am[1..], bm, k);
    }
  }

  lemma {:induction false} ObjWalkUnique(am: seq<Member>, b2: seq<Member>)
    requires UniqueKeys(am)
    ensures ObjWalk(am, b2).0 == KeyBlocks(am, b2)
    ensures ObjWalk(am, b2).1 == Unmatched(b2, am)
  {
    if am == [] {
      UnmatchedNothing(b2);
    } else {
      var k := am[0].key;
      UniqueTail(am);
      ObjWalkUnique(am[1..], Without(b2, k));
      KeyBlocksWithout(am[1..], b2, k);
      UnmatchedWithout(b2, am[0], am[1..]);
      assert [am[0]] + am[1..] == am;
    }
  }

  /** The output of `diff_obj` is, in this order: the block of each of a's
      members, in a's order, then one '+' line for each member of b whose
      key is not a's, in b's order.  Nothing is sorted. */
  lemma ObjectDiffShape(am: seq<Member>, bm: seq<Member>)
    requires UniqueKeys(am)
    ensures ObjectDiff(am, bm) == KeyBlocks(am, bm) + AddedLines(Unmatched(bm, am))
  {
    ObjWalkUnique(am, bm);
  }

  /** What one key of a contributes, case by case. */
  lemma KeyBlockCases(m: Member, bm: seq<Member>)
    ensures var k, va, block := m.key, m.val, KeyBlock(m, bm);
      && (!HasKey(bm, k) ==> block == [Line('-', 0, KeyLabel(k) + Text(va))])
      && (HasKey(bm, k) ==>
            var vb := Get(bm, k).value;
            && (JsonEq(va, vb) ==> block == [])
            && (!JsonEq(va, vb) && va.Object? && vb.Object? ==>
                  block == Wrapped(ObjectDiff(va.members, vb.members), KeyLabel(k), ObjectKind))
            && (!JsonEq(va, vb) && va.Array? && vb.Array? ==>
                  block == Wrapped(ArrayDiff(va.items, vb.items), KeyLabel(k), ArrayKind))
            && (!JsonEq(va, vb) && !(va.Object? && vb.Object?) && !(va.Array? && vb.Array?) ==>
                  block == [Line('~', 0, KeyLabel(k) + Text(va) + " => " + Text(vb))]))
  {
    var k, va := m.key, m.val;
    var lines := KeyLines(k, va, Get(bm, k));
    if HasKey(bm, k) {
      var vb := Get(bm, k).value;
      if JsonEq(va, vb) {
        assert lines == [Sentinel] && lines[1..] == [];
      } else if (va.Object? && vb.Object?) || (va.Array? && vb.Array?) {
        var kind := if va.Object? then ObjectKind else ArrayKind;
        WrappedMarkers(Diff(va, vb).value, KeyLabel(k), kind);
        assert lines == Wrapped(Diff(va, vb).value, KeyLabel(k), kind);
        DropSentinelsKeepsAll(lines);
      } else {
        DropSentinelsKeepsAll(lines);
      }
    } else {
      DropSentinelsKeepsAll(lines);
    }
  }

  // ---------------------------------------------------------------------
  // Identity
  // ---------------------------------------------------------------------

  lemma {:induction false} KeyBlocksSelf(ms: seq<Member>, i: nat)
    requires UniqueKeys(ms) && forall j :: 0 <= j < |ms| ==> WellFormed(ms[j].val)
    requires i <= |ms|
    ensures KeyBlocks(ms[i..], ms) == []
    decreases |ms| - i
  {
    if i < |ms| {
      GetUnique(ms, i);
      JsonEqRefl(ms[i].val);
      KeyBlockCases(ms[i], ms);
      assert KeyBlock(ms[i], ms) == [];
      KeyBlocksSelf(ms, i + 1);
      assert ms[i..][1..] == ms[i + 1..];
    }
  }

  /** An object compared with itself gives no line. */
  lemma DiffSelfObject(v: Value)
    requires WellFormed(v) && v.Object?
    ensures Diff(v, v) == Ok([])
  {
    ObjectDiffShape(v.members, v.members);
    KeyBlocksSelf(v.members, 0);
    assert v.members[0..] == v.members;
    UnmatchedAll(v.members);
  }

  lemma {:induction false} PairBlocksSelf(xs: seq<Value>, i: nat)
    requires AllObjects(xs) && forall j :: 0 <= j < |xs| ==> WellFormed(xs[j])
    requires i <= |xs|
    ensures ObjectPairs(Zip(xs, xs)[i..])
    ensures PairBlocks(Zip(xs, xs)[i..]) == []
    decreases |xs| - i
  {
    var z := Zip(xs, xs);
    ZipAt(xs, xs);
    assert ObjectPairs(z[i..]) by {
      forall j | 0 <= j < |z[i..]| ensures z[i..][j] == (Some(xs[i + j]), Some(xs[i + j])) { }
    }
    if i < |xs| {
      PairBlocksSelf(xs, i + 1);
      assert z[i..][1..] == z[i + 1..];
      assert z[i..][0] == (Some(xs[i]), Some(xs[i]));
      DiffSelfObject(xs[i]);
    }
  }

  /** An array of objects compared with itself gives no line, the empty
      array included. */
  lemma DiffSelfObjectArray(v: Value)
    requires WellFormed(v) && v.Array? && AllObjects(v.items)
    ensures Diff(v, v) == Ok([])
  {
    var xs := v.items;
    assert AllObjects(xs + xs) by {
      forall i | 0 <= i < |xs + xs| ensures (xs + xs)[i].Object? {
        if i >= |xs| { assert (xs + xs)[i] == xs[i - |xs|]; }
      }
    }
    PairBlocksSelf(xs, 0);
    assert Zip(xs, xs)[0..] == Zip(xs, xs);
  }

  /** An array holding a non-object is one '~' line, even against itself. */
  lemma DiffSelfOpaqueArray(v: Value)
    requires v.Array? && !AllObjects(v.items)
    ensures Diff(v, v) == Ok([Line('~', 0, Text(v) + " => " + Text(v))])
  {
    var xs := v.items;
    assert !AllObjects(xs + xs) by {
      var i :| 0 <= i < |xs| && !xs[i].Object?;
      assert (xs + xs)[i] == xs[i];
    }
  }

  // ---------------------------------------------------------------------
  // The shape of an array diff
  // ---------------------------------------------------------------------

  /** The members of the i-th element, `{}` when there is none. */
  function MembersOrEmpty(xs: seq<Value>, i: nat): seq<Member> {
    if i < |xs| && xs[i].Object? then xs[i].members else []
  }

  /** The paired-array policy as the index-by-index concatenation of
      `wrap(diff_obj(a[i] or {}, b[i] or {}), "", Object)`. */
  function Positional(xs: seq<Value>, ys: seq<Value>, i: nat): seq<Line>
    decreases Max(|xs|, |ys|) - i
  {
    if i >= Max(|xs|, |ys|) then []
    else Wrapped(ObjectDiff(MembersOrEmpty(xs, i), MembersOrEmpty(ys, i)), "", ObjectKind) + Positional(xs, ys, i + 1)
  }

  /** The block of pair i is the wrapped diff of element i's members, `{}`
      standing for a missing element. */
  lemma PairBlockPositional(xs: seq<Value>, ys: seq<Value>, i: nat)
    requires AllObjects(xs) && AllObjects(ys)
    requires i < Max(|xs|, |ys|)
    ensures PairBlock((At(xs, i), At(ys, i))) ==
      Wrapped(ObjectDiff(MembersOrEmpty(xs, i), MembersOrEmpty(ys, i)), "", ObjectKind)
  {
    var am, bm := MembersOrEmpty(xs, i), MembersOrEmpty(ys, i);
    match (At(xs, i), At(ys, i))
    case (Some(x), Some(y)) => assert Diff(x, y) == Ok(ObjectDiff(am, bm));
    case (Some(x), None) => assert Diff(x, EmptyObject) == Ok(ObjectDiff(am, bm));
    case (None, Some(y)) => assert Diff(EmptyObject, y) == Ok(ObjectDiff(am, bm));
  }

  lemma ZipObjectPairs(xs: seq<Value>, ys: seq<Value>, i: nat)
    requires AllObjects(xs) && AllObjects(ys)
    requires i <= Max(|xs|, |ys|)
    ensures ObjectPairs(Zip(xs, ys)[i..])
  {
    var t := Zip(xs, ys)[i..];
    ZipAt(xs, ys);
    forall j | 0 <= j < |t| ensures t[j] == (At(xs, i + j), At(ys, i + j)) { }
  }

  lemma {:induction false} PairBlocksPositional(xs: seq<Value>, ys: seq<Value>, i: nat)
    requires AllObjects(xs) && AllObjects(ys)
    requires i <= Max(|xs|, |ys|)
    ensures ObjectPairs(Zip(xs, ys)[i..])
    ensures PairBlocks(Zip(xs, ys)[i..]) == Positional(xs, ys, i)
    decreases Max(|xs|, |ys|) - i
  {
    var z := Zip(xs, ys);
    var t := z[i..];
    ZipObjectPairs(xs, ys, i);
    if i < Max(|xs|, |ys|) {
      PairBlocksPositional(xs, ys, i + 1);
      assert t[1..] == z[i + 1..];
      ZipAt(xs, ys);
      assert t[0] == (At(xs, i), At(ys, i));
      PairBlockPositional(xs, ys, i);
      assert PairBlocks(t) == PairBlock(t[0]) + PairBlocks(t[1..]);
    } else {
      assert t == [];
    }
  }

  /** Arrays of objects: element i of a is diffed against element i of b,
      a missing element standing for `{}`, each diff wrapped in braces, the
      blocks concatenated in index order. */
  lemma ArrayDiffPositional(xs: seq<Value>, ys: seq<Value>)
    requires AllObjects(xs) && AllObjects(ys)
    ensures ArrayDiff(xs, ys) == Positional(xs, ys, 0)
  {
    assert AllObjects(xs + ys) by {
      forall i | 0 <= i < |xs + ys| ensures (xs + ys)[i].Object? {
        if i >= |xs| { assert (xs + ys)[i] == ys[i - |xs|]; }
      }
    }
    PairBlocksPositional(xs, ys, 0);
    assert Zip(xs, ys)[0..] == Zip(xs, ys);
  }

  /** Any non-object element on either side: exactly one '~' line of the
      two arrays' texts. */
  lemma ArrayDiffOpaque(xs: seq<Value>, ys: seq<Value>)
    requires !(AllObjects(xs) && AllObjects(ys))
    ensures ArrayDiff(xs, ys) == [Line('~', 0, Text(Array(xs)) + " => " + Text(Array(ys)))]
  {
    assert !AllObjects(xs + ys) by {
      if !AllObjects(xs) {
        var i :| 0 <= i < |xs| && !xs[i].Object?;
        assert (xs + ys)[i] == xs[i];
      } else {
        var i :| 0 <= i < |ys| && !ys[i].Object?;
        assert (xs + ys)[|xs| + i] == ys[i];
      }
    }
  }
}
