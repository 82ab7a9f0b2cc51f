/** The earlier, flat differ (src/lib.rs): one line per key, no recursion
    into nested values, the result sorted by text; and its copy of
    `parse_environment`. */
module Legacy {
  import opened Wrappers
  import opened Json
  import Parser
  import Pairing

  /** lib.rs's own line record: a marker and a text, no depth. */
  datatype FlatLine = FlatLine(marker: char, text: string)

  /** `Display::fmt`: the marker, a space, the text. */
  function RenderFlat(l: FlatLine): (s: string)
    ensures |s| == |l.text| + 2 && s[0] == l.marker && s[1] == ' ' && s[2..] == l.text
  {
    [l.marker, ' '] + l.text
  }

  /** The line the `map` closure gives for one key of t, given what
      `u_obj.remove(key)` returned. */
  function FlatKeyLine(k: string, v: Value, removed: Option<Value>): (r: FlatLine)
    ensures r.marker == '-' <==> removed.None?
    ensures r.marker == 'x' <==> removed.Some? && JsonEq(v, removed.value)
    ensures r.marker != 'x' ==> Parser.KeyLabel(k) <= r.text
  {
    match removed
    case Some(w) =>
      if JsonEq(v, w) then FlatLine('x', "")
      else FlatLine('~', Parser.KeyLabel(k) + Text(v) + " => " + Text(w))
    case None => FlatLine('-', Parser.KeyLabel(k) + Text(v))
  }

  /** The `map` over t's members, removing each key from u's clone as it
      goes: the mapped lines (sentinels included) and what is left of u. */
  function FlatWalk(tm: seq<Member>, um: seq<Member>): (r: (seq<FlatLine>, seq<Member>))
    ensures |r.0| == |tm|
    ensures forall i :: 0 <= i < |r.0| ==> r.0[i].marker in "-~x"
  {
    if tm == [] then ([], um)
    else
      var rest := FlatWalk(tm[1..], Without(um, tm[0].key));
      ([FlatKeyLine(tm[0].key, tm[0].val, Get(um, tm[0].key))] + rest.0, rest.1)
  }

  /** The filter that drops the sentinel lines. */
  function Visible(ls: seq<FlatLine>): (r: seq<FlatLine>)
    ensures forall i :: 0 <= i < |r| ==> r[i].marker != 'x'
  {
    if ls == [] then []
    else
      var rest := Visible(ls[1..]);
      assert ls == [ls[0]] + ls[1..];
      if ls[0].marker == 'x' then rest else [ls[0]] + rest
  }

  /** The filter keeps exactly the lines that are not sentinels. */
  lemma {:induction false} VisibleMembers(ls: seq<FlatLine>)
    ensures forall l :: l in Visible(ls) <==> l in ls && l.marker != 'x'
  {
    if ls != [] {
      VisibleMembers(ls[1..]);
      assert ls == [ls[0]] + ls[1..];
    }
  }

  /** Without sentinels the filter keeps everything. */
  lemma {:induction false} VisibleKeepsAll(ls: seq<FlatLine>)
    requires forall i :: 0 <= i < |ls| ==> ls[i].marker != 'x'
    ensures Visible(ls) == ls
  {
    if ls != [] {
      assert forall i :: 0 <= i < |ls[1..]| ==> ls[1..][i] == ls[i + 1];
      VisibleKeepsAll(ls[1..]);
      assert ls == [ls[0]] + ls[1..];
    }
  }

  /** One step of the filter. */
  lemma VisibleCons(h: FlatLine, t: seq<FlatLine>)
    ensures Visible([h] + t) == if h.marker == 'x' then Visible(t) else [h] + Visible(t)
  {
    assert ([h] + t)[0] == h && ([h] + t)[1..] == t;
  }

  /** Filtering a concatenation concatenates the filtered parts. */
  lemma {:induction false} VisibleAppend(xs: seq<FlatLine>, ys: seq<FlatLine>)
    ensures Visible(xs + ys) == Visible(xs) + Visible(ys)
  {
    if xs == [] {
      assert xs + ys == ys;
    } else {
      var h, t := xs[0], xs[1..];
      VisibleAppend(t, ys);
      assert xs == [h] + t;
      Parser.ConcatAssoc([h], t, ys);
      VisibleCons(h, t);
      VisibleCons(h, t + ys);
      if h.marker != 'x' {
        Parser.ConcatAssoc([h], Visible(t), Visible(ys));
      }
    }
  }



  /** The '+' lines pushed for the members left in u's clone. */
  function Pluses(ms: seq<Member>): (r: seq<FlatLine>)
    ensures |r| == |ms|
    ensures forall i :: 0 <= i < |ms| ==> r[i] == FlatLine('+', Parser.KeyLabel(ms[i].key) + Text(ms[i].val))
  {
    seq(|ms|, i requires 0 <= i < |ms| => FlatLine('+', Parser.KeyLabel(ms[i].key) + Text(ms[i].val)))
  }

  /** `result` just before it is sorted. */
  function Unsorted(tm: seq<Member>, um: seq<Member>): (r: seq<FlatLine>)
    ensures forall i :: 0 <= i < |r| ==> r[i].marker in "+-~"
  {
    var w := FlatWalk(tm, um);
    var r := Visible(w.0) + Pluses(w.1);
    VisibleMembers(w.0);
    assert forall i :: 0 <= i < |r| ==> r[i] in Visible(w.0) || r[i] in Pluses(w.1);
    r
  }

  // ---------------------------------------------------------------------
  // Ordering by text
  // ---------------------------------------------------------------------

  /** `String::cmp` as "less than or equal": lexicographic on characters
      (the byte order of UTF-8 is the order of code points). */
  predicate StrLe(a: string, b: string)
    decreases |a|
  {
    a == [] || (b != [] && (a[0] < b[0] || (a[0] == b[0] && StrLe(a[1..], b[1..]))))
  }

  lemma {:induction false} StrLeTotal(a: string, b: string)
    ensures StrLe(a, b) || StrLe(b, a)
    decreases |a|
  {
    if a != [] && b != [] && a[0] == b[0] {
      StrLeTotal(a[1..], b[1..]);
    }
  }

  lemma {:induction false} StrLeAntisymmetric(a: string, b: string)
    requires StrLe(a, b) && StrLe(b, a)
    ensures a == b
    decreases |a|
  {
    if a != [] {
      StrLeAntisymmetric(a[1..], b[1..]);
      assert a == [a[0]] + a[1..] && b == [b[0]] + b[1..];
    }
  }

  lemma {:induction false} StrLeTransitive(a: string, b: string, c: string)
    requires StrLe(a, b) && StrLe(b, c)
    ensures StrLe(a, c)
    decreases |a|
  {
    if a != [] && a[0] == b[0] && b[0] == c[0] {
      StrLeTransitive(a[1..], b[1..], c[1..]);
    }
  }

  predicate SortedByText(ls: seq<FlatLine>) {
    forall i, j :: 0 <= i < j < |ls| ==> StrLe(ls[i].text, ls[j].text)
  }

  lemma SortedCons(h: FlatLine, t: seq<FlatLine>)
    requires SortedByText(t)
    requires forall e :: e in t ==> StrLe(h.text, e.text)
    ensures SortedByText([h] + t)
  {
    var s := [h] + t;
    forall i, j | 0 <= i < j < |s| ensures StrLe(s[i].text, s[j].text) {
      if i == 0 {
        assert s[j] == t[j - 1];
      } else {
        assert s[i] == t[i - 1] && s[j] == t[j - 1];
      }
    }
  }

  /** One step of an insertion sort. */
  function InsertByText(x: FlatLine, s: seq<FlatLine>): (r: seq<FlatLine>)
    requires SortedByText(s)
    ensures SortedByText(r)
    ensures multiset(r) == multiset(s) + multiset{x}
  {
    if s == [] then [x]
    else if StrLe(x.text, s[0].text) then
      forall e | e in s ensures StrLe(x.text, e.text) {
        if e != s[0] {
          var j :| 0 <= j < |s| && s[j] == e;
          StrLeTransitive(x.text, s[0].text, e.text);
        }
      }
      SortedCons(x, s);
      [x] + s
    else
      assert s == [s[0]] + s[1..];
      var rest := InsertByText(x, s[1..]);
      StrLeTotal(x.text, s[0].text);
      forall e | e in rest ensures StrLe(s[0].text, e.text) {
        assert e in multiset(rest);
        if e != x {
          assert e in s[1..];
          var j :| 0 <= j < |s[1..]| && s[1..][j] == e;
          assert s[j + 1] == e;
        }
      }
      SortedCons(s[0], rest);
      [s[0]] + rest
  }

  /** What the unstable sort by text leaves behind: the same lines,
      ordered by text. */
  function SortByText(ls: seq<FlatLine>): (r: seq<FlatLine>)
    ensures SortedByText(r)
    ensures multiset(r) == multiset(ls)
  {
    if ls == [] then []
    else
      assert ls == [ls[0]] + ls[1..];
      InsertByText(ls[0], SortByText(ls[1..]))
  }

  // ---------------------------------------------------------------------
  // diff
  // ---------------------------------------------------------------------

  /** `diff(t, u)`: nothing unless both are objects; otherwise one line per
      key, no sentinel, in text order. */
  method Diff(t: Value, u: Value) returns (r: Option<seq<FlatLine>>)
    ensures r.Some? <==> t.Object? && u.Object?
    ensures r.Some? ==> SortedByText(r.value)
    ensures r.Some? ==> multiset(r.value) == multiset(Unsorted(t.members, u.members))
    ensures r.Some? ==> forall i :: 0 <= i < |r.value| ==> r.value[i].marker in "+-~"
    ensures r.Some? && t == u && WellFormed(t) ==> r.value == []
  {
    if !u.Object? {
      return None;
    }
    var uObj := u.members;
    if !t.Object? {
      return None;
    }
    var result, left := MapAndFilter(t.members, uObj);
    result := PushLeftovers(result, left);
    var sorted := SortByText(result);
    Rearranged(result, sorted);
    if t == u && WellFormed(t) {
      FlatDiffSelf(t.members);
    }
    return Some(sorted);
  }

  /** A rearrangement has the same length and only the original's lines. */
  lemma Rearranged(xs: seq<FlatLine>, ys: seq<FlatLine>)
    requires multiset(xs) == multiset(ys)
    ensures |ys| == |xs|
    ensures forall i :: 0 <= i < |ys| ==> ys[i] in xs
  {
    assert |multiset(xs)| == |multiset(ys)|;
    forall i | 0 <= i < |ys| ensures ys[i] in xs {
      assert ys[i] in multiset(ys);
    }
  }

  /** The `map`/`filter`/`collect` chain over t's members: the kept lines
      and what is left of u's clone. */
  method MapAndFilter(tm: seq<Member>, um: seq<Member>) returns (result: seq<FlatLine>, uObj: seq<Member>)
    ensures result == Visible(FlatWalk(tm, um).0)
    ensures uObj == FlatWalk(tm, um).1
  {
    uObj := um;
    result := [];
    assert tm[0..] == tm;
    for i := 0 to |tm|
      invariant Visible(FlatWalk(tm, um).0) == result + Visible(FlatWalk(tm[i..], uObj).0)
      invariant FlatWalk(tm, um).1 == FlatWalk(tm[i..], uObj).1
    {
      var key, val := tm[i].key, tm[i].val;
      ghost var rest := FlatWalk(tm[i + 1..], Without(uObj, key));
      FlatWalkStep(tm, i, uObj);
      var removed := Get(uObj, key);
      uObj := Without(uObj, key);
      var line := KeyLine(key, val, removed);
      VisibleCons(line, rest.0);
      if line.marker != 'x' {
        Parser.ConcatAssoc(result, [line], Visible(rest.0));
        result := result + [line];
      }
    }
    assert tm[|tm|..] == [];
  }

  /** One step of the walk: the line for t's member i, then the walk of
      the rest against u without that key. */
  lemma FlatWalkStep(tm: seq<Member>, i: nat, um: seq<Member>)
    requires i < |tm|
    ensures var rest := FlatWalk(tm[i + 1..], Without(um, tm[i].key));
      FlatWalk(tm[i..], um) == ([FlatKeyLine(tm[i].key, tm[i].val, Get(um, tm[i].key))] + rest.0, rest.1)
  {
    assert tm[i..][0] == tm[i] && tm[i..][1..] == tm[i + 1..];
  }

  /** The closure of the `map`. */
  method KeyLine(key: string, val: Value, removed: Option<Value>) returns (line: FlatLine)
    ensures line == FlatKeyLine(key, val, removed)
  {
    if removed.Some? {
      if JsonEq(val, removed.value) {
        line := FlatLine('x', "");
      } else {
        line := FlatLine('~', Parser.KeyLabel(key) + Text(val) + " => " + Text(removed.value));
      }
    } else {
      line := FlatLine('-', Parser.KeyLabel(key) + Text(val));
    }
  }

  /** The `for` loop pushing a '+' line per member left in u's clone. */
  method PushLeftovers(lines: seq<FlatLine>, uObj: seq<Member>) returns (result: seq<FlatLine>)
    ensures result == lines + Pluses(uObj)
  {
    result := lines;
    for j := 0 to |uObj|
      invariant result == lines + Pluses(uObj[..j])
    {
      var line := FlatLine('+', Parser.KeyLabel(uObj[j].key) + Text(uObj[j].val));
      assert Pluses(uObj[..j + 1]) == Pluses(uObj[..j]) + [line];
      result := result + [line];
    }
    assert uObj[..|uObj|] == uObj;
  }

  // ---------------------------------------------------------------------
  // Properties of the flat diff
  // ---------------------------------------------------------------------

  /** The line for each of t's keys, looked up in u itself. */
  function FlatLines(tm: seq<Member>, um: seq<Member>): (r: seq<FlatLine>)
    ensures |r| == |tm|
    ensures forall i :: 0 <= i < |tm| ==> r[i] == FlatKeyLine(tm[i].key, tm[i].val, Get(um, tm[i].key))
  {
    if tm == [] then []
    else
      var rest := FlatLines(tm[1..], um);
      [FlatKeyLine(tm[0].key, tm[0].val, Get(um, tm[0].key))] + rest
  }

  lemma {:induction false} FlatLinesWithout(tm: seq<Member>, um: seq<Member>, k: string)
    requires !HasKey(tm, k)
    ensures FlatLines(tm, Without(um, k)) == FlatLines(tm, um)
  {
    if tm != [] {
      GetWithout(um, k, tm[0].key);
      assert !HasKey(tm[1..], k) by {
        forall i | 0 <= i < |tm[1..]| ensures tm[1..][i].key != k {
          assert tm[1..][i] == tm[i + 1];
        }
      }
      FlatLinesWithout(tm[1..], um, k);
    }
  }

  lemma {:induction false} FlatWalkUnique(tm: seq<Member>, um: seq<Member>)
    requires UniqueKeys(tm)
    ensures FlatWalk(tm, um).0 == FlatLines(tm, um)
    ensures FlatWalk(tm, um).1 == Unmatched(um, tm)
  {
    if tm == [] {
      UnmatchedNothing(um);
    } else {
      var k := tm[0].key;
      Parser.UniqueTail(tm);
      FlatWalkUnique(tm[1..], Without(um, k));
      FlatLinesWithout(tm[1..], um, k);
      UnmatchedWithout(um, tm[0], tm[1..]);
      assert [tm[0]] + tm[1..] == tm;
    }
  }

  /** Before sorting, the lines are: for each key of t in t's order, a '-'
      line when u lacks it, nothing when u's value is equal, and one '~'
      line otherwise (however deeply the values differ); then one '+' line
      for each member of u whose key is not t's, in u's order. */
  lemma FlatShape(tm: seq<Member>, um: seq<Member>)
    requires UniqueKeys(tm)
    ensures Unsorted(tm, um) == Visible(FlatLines(tm, um)) + Pluses(Unmatched(um, tm))
    ensures forall i :: 0 <= i < |tm| ==>
      var k, v := tm[i].key, tm[i].val;
      FlatLines(tm, um)[i] ==
        if !HasKey(um, k) then FlatLine('-', Parser.KeyLabel(k) + Text(v))
        else if JsonEq(v, Get(um, k).value) then FlatLine('x', "")
        else FlatLine('~', Parser.KeyLabel(k) + Text(v) + " => " + Text(Get(um, k).value))
  {
    FlatWalkUnique(tm, um);
  }

  lemma {:induction false} FlatLinesSelf(ms: seq<Member>, i: nat)
    requires UniqueKeys(ms) && forall j :: 0 <= j < |ms| ==> WellFormed(ms[j].val)
    requires i <= |ms|
    ensures Visible(FlatLines(ms[i..], ms)) == []
    decreases |ms| - i
  {
    if i < |ms| {
      GetUnique(ms, i);
      JsonEqRefl(ms[i].val);
      FlatLinesSelf(ms, i + 1);
      assert ms[i..][1..] == ms[i + 1..];
      assert FlatLines(ms[i..], ms)[1..] == FlatLines(ms[i + 1..], ms);
    }
  }

  /** An object compared with itself gives no line before sorting. */
  lemma FlatDiffSelf(ms: seq<Member>)
    requires WellFormed(Object(ms))
    ensures Unsorted(ms, ms) == []
  {
    FlatShape(ms, ms);
    FlatLinesSelf(ms, 0);
    assert ms[0..] == ms;
    UnmatchedAll(ms);
  }

  // ---------------------------------------------------------------------
  // parse_environment
  // ---------------------------------------------------------------------

  /** lib.rs's `parse_environment` is the same code as pair.rs's, so it is
      the same definition. */
  method ParseEnvironment(env: Value) returns (r: Option<Value>)
    ensures r == Pairing.EnvironmentOf(env)
  {
    r := Pairing.ParseEnvironment(env);
  }
}
