/** Input splitting and normalisation (src/pair.rs): `Pair::trim` and the
    `" => "` split of `Pair::new`, the rewrite of one key's value through a
    partial function (`replace_in_tree`), and the conversion of a
    `[{name, value}]` array into an object (`parse_environment`).  The JSON
    text parser is a parameter. */
module Pairing {
  import opened Wrappers
  import opened Json

  // ---------------------------------------------------------------------
  // Character and substring search
  // ---------------------------------------------------------------------

  /** `str::find` for a character. */
  function FirstIndex(s: string, c: char): (r: Option<nat>)
    ensures r.None? <==> c !in s
    ensures r.Some? ==> r.value < |s| && s[r.value] == c && c !in s[..r.value]
  {
    if s == [] then None
    else if s[0] == c then Some(0)
    else
      var r := FirstIndex(s[1..], c);
      assert s == [s[0]] + s[1..];
      if r.None? then None
      else
        assert s[..r.value + 1] == [s[0]] + s[1..][..r.value];
        Some(r.value + 1)
  }

  /** `str::rfind` for a character. */
  function LastIndex(s: string, c: char): (r: Option<nat>)
    ensures r.None? <==> c !in s
    ensures r.Some? ==> r.value < |s| && s[r.value] == c && c !in s[r.value + 1..]
  {
    if s == [] then None
    else if s[|s| - 1] == c then Some(|s| - 1)
    else
      var init := s[..|s| - 1];
      var r := LastIndex(init, c);
      assert s == init + [s[|s| - 1]];
      if r.None? then None
      else
        assert s[r.value + 1..] == init[r.value + 1..] + [s[|s| - 1]];
        Some(r.value)
  }

  /** `Pair::trim`: from the first double quote (included) to the last one
      (excluded); nothing when the input holds no double quote. */
  function Trim(input: string): (r: Option<string>)
    ensures r.None? <==> '"' !in input
    ensures r.Some? ==>
      exists i, j :: 0 <= i <= j < |input| && r.value == input[i..j] &&
        input[i] == '"' && input[j] == '"' && '"' !in input[..i] && '"' !in input[j + 1..]
  {
    match (FirstIndex(input, '"'), LastIndex(input, '"'))
    case (Some(i), Some(j)) =>
      Some(input[i..j])
    case _ => None
  }

  /** `pat` occurs in `s` at position k. */
  predicate OccursAt(s: string, pat: string, k: nat) {
    k + |pat| <= |s| && s[k..k + |pat|] == pat
  }

  predicate Contains(s: string, pat: string) {
    exists k: nat | k <= |s| :: OccursAt(s, pat, k)
  }

  /** `str::find` for a pattern, searching from position `from`. */
  function FindFrom(s: string, pat: string, from: nat): (r: Option<nat>)
    requires forall k: nat :: k < from ==> !OccursAt(s, pat, k)
    ensures r.None? <==> !Contains(s, pat)
    ensures r.Some? ==> OccursAt(s, pat, r.value) && forall k: nat :: k < r.value ==> !OccursAt(s, pat, k)
    decreases |s| - from
  {
    if from + |pat| > |s| then
      assert forall k: nat :: !OccursAt(s, pat, k) by {
        forall k: nat ensures !OccursAt(s, pat, k) {
          if k >= from { assert k + |pat| > |s|; }
        }
      }
      None
    else if s[from..from + |pat|] == pat then
      assert OccursAt(s, pat, from);
      Some(from)
    else FindFrom(s, pat, from + 1)
  }

  function Find(s: string, pat: string): (r: Option<nat>)
    ensures r.None? <==> !Contains(s, pat)
    ensures r.Some? ==> OccursAt(s, pat, r.value) && forall k: nat :: k < r.value ==> !OccursAt(s, pat, k)
  {
    FindFrom(s, pat, 0)
  }

  const Separator: string := " => "

  /** The split in `Pair::new`: the text before the first `" => "` and the
      text after it. */
  function SplitAtSeparator(trimmed: string): (r: Option<(string, string)>)
    ensures r.None? <==> !Contains(trimmed, Separator)
    ensures r.Some? ==> r.value.0 + Separator + r.value.1 == trimmed
  {
    match Find(trimmed, Separator)
    case Some(index) =>
      assert trimmed == trimmed[..index] + trimmed[index..index + |Separator|] + trimmed[index + |Separator|..];
      Some((trimmed[..index], trimmed[index + |Separator|..]))
    case None => None
  }

  /** The split is at the first separator: no separator starts in the
      input before the end of the left half, so the left half holds none
      either. */
  lemma SplitAtSeparatorSpec(trimmed: string)
    ensures SplitAtSeparator(trimmed).Some? ==>
      var (left, right) := SplitAtSeparator(trimmed).value;
      && OccursAt(trimmed, Separator, |left|)
      && (forall k: nat :: k < |left| ==> !OccursAt(trimmed, Separator, k))
      && !Contains(left, Separator)
  {
    var r := Find(trimmed, Separator);
    if r.Some? {
      var index := r.value;
      var left := trimmed[..index];
      forall k: nat ensures !OccursAt(left, Separator, k) {
        if OccursAt(left, Separator, k) {
          assert left[k..k + |Separator|] == trimmed[k..k + |Separator|];
          assert OccursAt(trimmed, Separator, k) && k < index;
          assert false;
        }
      }
    }
  }

  /** Two splits of the same text at separators, the first of them having
      no separator before it, are the same split. */
  lemma SplitAtSeparatorUnique(trimmed: string, left: string, right: string)
    requires left + Separator + right == trimmed
    requires forall k: nat :: k < |left| ==> !OccursAt(trimmed, Separator, k)
    ensures SplitAtSeparator(trimmed) == Some((left, right))
  {
    assert trimmed[|left|..|left| + |Separator|] == Separator;
    assert OccursAt(trimmed, Separator, |left|);
    var index := Find(trimmed, Separator).value;
    assert index == |left|;
    assert trimmed[..index] == left;
    assert trimmed[index + |Separator|..] == right;
  }

  // ---------------------------------------------------------------------
  // Trimming in `clean_string`
  // ---------------------------------------------------------------------

  /** Unicode White_Space, what `char::is_whitespace` tests. */
  predicate IsWhitespace(c: char) {
    || ('\t' <= c <= '\r') || c == ' ' || c == '\U{85}' || c == '\U{A0}' || c == '\U{1680}'
    || ('\U{2000}' <= c <= '\U{200A}') || c == '\U{2028}' || c == '\U{2029}' || c == '\U{202F}'
    || c == '\U{205F}' || c == '\U{3000}'
  }

  predicate IsQuote(c: char) {
    c == '"'
  }

  /** How many leading characters satisfy `p`. */
  function Leading(s: string, p: char -> bool): (n: nat)
    ensures n <= |s|
    ensures forall i :: 0 <= i < n ==> p(s[i])
    ensures n < |s| ==> !p(s[n])
  {
    if s == [] || !p(s[0]) then 0 else 1 + Leading(s[1..], p)
  }

  /** How many trailing characters satisfy `p`. */
  function Trailing(s: string, p: char -> bool): (n: nat)
    ensures n <= |s|
    ensures forall i :: |s| - n <= i < |s| ==> p(s[i])
    ensures n < |s| ==> !p(s[|s| - n - 1])
  {
    if s == [] || !p(s[|s| - 1]) then 0 else 1 + Trailing(s[..|s| - 1], p)
  }

  /** `str::trim_matches`: drop every leading and trailing character that
      satisfies `p`. */
  function TrimMatching(s: string, p: char -> bool): (r: string)
    ensures |r| <= |s|
    ensures r != [] ==> !p(r[0]) && !p(r[|r| - 1])
    ensures (forall i :: 0 <= i < |s| ==> p(s[i])) ==> r == []
  {
    var rest := s[Leading(s, p)..];
    rest[..|rest| - Trailing(rest, p)]
  }

  /** What is kept is a slice of the input whose ends do not satisfy `p`,
      and everything dropped on either side does. */
  lemma TrimMatchingSpec(s: string, p: char -> bool)
    ensures var r := TrimMatching(s, p);
      exists i, j :: 0 <= i <= j <= |s| && r == s[i..j] &&
        (forall k :: 0 <= k < i ==> p(s[k])) && (forall k :: j <= k < |s| ==> p(s[k])) &&
        (r != [] ==> !p(r[0]) && !p(r[|r| - 1]))
  {
    var i := Leading(s, p);
    var rest := s[i..];
    var t := Trailing(rest, p);
    var j := i + |rest| - t;
    assert rest[..|rest| - t] == s[i..j];
    forall k | j <= k < |s| ensures p(s[k]) {
      assert s[k] == rest[k - i];
    }
  }

  // ---------------------------------------------------------------------
  // replace_in_tree
  // ---------------------------------------------------------------------

  /** `replace_in_tree(key, tree, f)`: an object holding `key` has that
      member's value replaced by `f` of it (failing when `f` fails), its
      other members copied as they are; an array has every element
      rewritten (failing when one fails); anything else is returned as is.
      Object members are not descended into. */
  function Replaced(key: string, tree: Value, f: Value -> Option<Value>): (r: Option<Value>)
    ensures r.Some? ==> (r.value.Object? <==> tree.Object?) && (r.value.Array? <==> tree.Array?)
    decreases tree
  {
    match tree
    case Object(ms) =>
      (match Get(ms, key)
       case None => Some(tree)
       case Some(v) =>
         match f(v)
         case None => None
         case Some(w) => Some(Object(Insert(ms, key, w))))
    case Array(items) =>
      (match ReplacedItems(key, items, f)
       case None => None
       case Some(vs) => Some(Array(vs)))
    case _ => Some(tree)
  }

  function ReplacedItems(key: string, items: seq<Value>, f: Value -> Option<Value>): Option<seq<Value>>
    decreases items
  {
    if items == [] then Some([])
    else
      match Replaced(key, items[0], f)
      case None => None
      case Some(x) =>
        match ReplacedItems(key, items[1..], f)
        case None => None
        case Some(xs) => Some([x] + xs)
  }

  function Prefixed(p: seq<Value>, o: Option<seq<Value>>): Option<seq<Value>> {
    match o
    case None => None
    case Some(xs) => Some(p + xs)
  }

  /** `replace_in_tree` as the source writes it: a clone of the object with
      one `insert`, or a `for`/`push` loop over the array that returns at
      the first failure. */
  method ReplaceInTree(key: string, tree: Value, f: Value -> Option<Value>) returns (r: Option<Value>)
    ensures r == Replaced(key, tree, f)
    decreases tree
  {
    match tree {
      case Object(obj) =>
        var newObject := obj;
        var value := Get(obj, key);
        if value.Some? {
          var replaced := f(value.value);
          if replaced.None? {
            return None;
          }
          newObject := Insert(newObject, key, replaced.value);
        }
        return Some(Object(newObject));
      case Array(elems) =>
        var newArray: seq<Value> := [];
        assert elems[0..] == elems;
        if ReplacedItems(key, elems, f).Some? {
          assert [] + ReplacedItems(key, elems, f).value == ReplacedItems(key, elems, f).value;
        }
        for i := 0 to |elems|
          invariant ReplacedItems(key, elems, f) == Prefixed(newArray, ReplacedItems(key, elems[i..], f))
        {
          assert elems[i..][0] == elems[i] && elems[i..][1..] == elems[i + 1..];
          var item := ReplaceInTree(key, elems[i], f);
          if item.None? {
            return None;
          }
          ghost var rest := ReplacedItems(key, elems[i + 1..], f);
          if rest.Some? {
            assert newArray + [item.value] + rest.value == newArray + ([item.value] + rest.value);
          }
          newArray := newArray + [item.value];
        }
        assert elems[|elems|..] == [] && newArray + [] == newArray;
        return Some(Array(newArray));
      case _ =>
        return Some(tree);
    }
  }

  /** On an object, only `key`'s member can change: absent, the object comes
      back unchanged; present, the call fails exactly when `f` fails on its
      value, and otherwise every other member is kept verbatim, in place,
      and `key` is bound to `f`'s result. */
  lemma ReplacedObject(key: string, ms: seq<Member>, f: Value -> Option<Value>)
    requires UniqueKeys(ms)
    ensures !HasKey(ms, key) ==> Replaced(key, Object(ms), f) == Some(Object(ms))
    ensures HasKey(ms, key) ==>
      var fv := f(Get(ms, key).value);
      && (Replaced(key, Object(ms), f).None? <==> fv.None?)
      && (fv.Some? ==>
            var r := Replaced(key, Object(ms), f).value;
            && r.Object? && |r.members| == |ms| && Keys(r.members) == Keys(ms)
            && forall i :: 0 <= i < |ms| ==>
                 r.members[i] == if ms[i].key == key then Member(key, fv.value) else ms[i])
  {
    if HasKey(ms, key) && f(Get(ms, key).value).Some? {
      InsertPresent(ms, key, f(Get(ms, key).value).value);
    }
  }

  /** Anything but an object or an array comes back as it is. */
  lemma ReplacedScalar(key: string, tree: Value, f: Value -> Option<Value>)
    requires !tree.Object? && !tree.Array?
    ensures Replaced(key, tree, f) == Some(tree)
  {
  }

  /** On an array, the call fails exactly when it fails on some element;
      otherwise element i of the result is the rewrite of element i. */
  lemma {:induction false} ReplacedArray(key: string, items: seq<Value>, f: Value -> Option<Value>)
    ensures Replaced(key, Array(items), f).None? <==>
      exists i :: 0 <= i < |items| && Replaced(key, items[i], f).None?
    ensures Replaced(key, Array(items), f).Some? ==>
      var r := Replaced(key, Array(items), f).value;
      && r.Array? && |r.items| == |items|
      && forall i :: 0 <= i < |items| ==> Some(r.items[i]) == Replaced(key, items[i], f)
  {
    ReplacedItemsSpec(key, items, f);
  }

  lemma {:induction false} ReplacedItemsSpec(key: string, items: seq<Value>, f: Value -> Option<Value>)
    ensures ReplacedItems(key, items, f).None? <==>
      exists i :: 0 <= i < |items| && Replaced(key, items[i], f).None?
    ensures ReplacedItems(key, items, f).Some? ==>
      var vs := ReplacedItems(key, items, f).value;
      |vs| == |items| && forall i :: 0 <= i < |items| ==> Some(vs[i]) == Replaced(key, items[i], f)
    decreases items
  {
    if items != [] {
      ReplacedItemsSpec(key, items[1..], f);
      assert forall i :: 0 <= i < |items[1..]| ==> items[1..][i] == items[i + 1];
      if Replaced(key, items[0], f).Some? && ReplacedItems(key, items[1..], f).None? {
        var i :| 0 <= i < |items[1..]| && Replaced(key, items[1..][i], f).None?;
        assert Replaced(key, items[i + 1], f).None?;
      }
    }
  }

  // ---------------------------------------------------------------------
  // parse_environment
  // ---------------------------------------------------------------------

  /** One element of the array: an object with a string `name` and any
      `value`. */
  function EnvEntry(t: Value): Option<(string, Value)> {
    match t
    case Object(ms) =>
      (match Get(ms, "name")
       case Some(String(n)) =>
         (match Get(ms, "value")
          case Some(v) => Some((n, v))
          case None => None)
       case _ => None)
    case _ => None
  }

  /** The entries of all elements; nothing as soon as one is malformed. */
  function Entries(items: seq<Value>): Option<seq<(string, Value)>> {
    if items == [] then Some([])
    else
      match (Entries(items[..|items| - 1]), EnvEntry(items[|items| - 1]))
      case (Some(es), Some(e)) => Some(es + [e])
      case _ => None
  }

  /** The map built by inserting the entries one after another. */
  function BuildEnv(es: seq<(string, Value)>): seq<Member> {
    if es == [] then []
    else Insert(BuildEnv(es[..|es| - 1]), es[|es| - 1].0, es[|es| - 1].1)
  }

  /** What `parse_environment(env)` returns. */
  function EnvironmentOf(env: Value): (r: Option<Value>)
    ensures r.Some? ==> env.Array? && r.value.Object? && UniqueKeys(r.value.members)
    ensures r.Some? ==> |r.value.members| <= |env.items|
  {
    match env
    case Array(items) =>
      (match Entries(items)
       case Some(es) =>
         BuildEnvSpec(es);
         EntriesPointwise(items);
         Some(Object(BuildEnv(es)))
       case None => None)
    case _ => None
  }

  /** `parse_environment` as the source writes it: a loop inserting into a
      map, leaving early on the first malformed element. */
  method ParseEnvironment(env: Value) returns (r: Option<Value>)
    ensures r == EnvironmentOf(env)
  {
    if !env.Array? {
      return None;
    }
    var items := env.items;
    var result: seq<Member> := [];
    for i := 0 to |items|
      invariant Entries(items[..i]).Some?
      invariant result == BuildEnv(Entries(items[..i]).value)
    {
      assert items[..i + 1][..i] == items[..i];
      var t := items[i];
      if !t.Object? {
        EntriesSpec(items);
        return None;
      }
      var name := Get(t.members, "name");
      if name.None? || !name.value.String? {
        EntriesSpec(items);
        return None;
      }
      var value := Get(t.members, "value");
      if value.None? {
        EntriesSpec(items);
        return None;
      }
      result := Insert(result, name.value.s, value.value);
    }
    assert items[..|items|] == items;
    return Some(Object(result));
  }

  /** An element is rejected exactly when it is not an object, has no
      string `name`, or has no `value`. */
  lemma EnvEntryFails(t: Value)
    ensures EnvEntry(t).None? <==>
      || !t.Object?
      || !(Get(t.members, "name").Some? && Get(t.members, "name").value.String?)
      || !HasKey(t.members, "value")
  {
  }

  lemma {:induction false} EntriesPointwise(items: seq<Value>)
    ensures Entries(items).Some? ==>
      var es := Entries(items).value;
      |es| == |items| && forall i :: 0 <= i < |items| ==> Some(es[i]) == EnvEntry(items[i])
  {
    if items != [] && Entries(items).Some? {
      var n := |items| - 1;
      var init := items[..n];
      EntriesPointwise(init);
      var es := Entries(init).value;
      var all := Entries(items).value;
      assert all == es + [EnvEntry(items[n]).value];
      forall i | 0 <= i < |items| ensures Some(all[i]) == EnvEntry(items[i]) {
        if i < n {
          assert all[i] == es[i] && init[i] == items[i];
        }
      }
    }
  }

  lemma {:induction false} EntriesFailure(items: seq<Value>)
    requires Entries(items).None?
    ensures exists i :: 0 <= i < |items| && EnvEntry(items[i]).None?
  {
    var n := |items| - 1;
    var init := items[..n];
    if Entries(init).None? {
      EntriesFailure(init);
      var i :| 0 <= i < n && EnvEntry(init[i]).None?;
      assert init[i] == items[i];
    } else {
      assert EnvEntry(items[n]).None?;
    }
  }

  /** Collecting the entries fails exactly when some element is rejected;
      otherwise entry i is element i's. */
  lemma EntriesSpec(items: seq<Value>)
    ensures Entries(items).None? <==> exists i :: 0 <= i < |items| && EnvEntry(items[i]).None?
    ensures Entries(items).Some? ==>
      var es := Entries(items).value;
      |es| == |items| && forall i :: 0 <= i < |items| ==> Some(es[i]) == EnvEntry(items[i])
  {
    EntriesPointwise(items);
    if Entries(items).None? {
      EntriesFailure(items);
    }
  }

  /** `parse_environment` fails exactly when the input is not an array or
      one of its elements is malformed. */
  lemma EnvironmentFails(env: Value)
    ensures EnvironmentOf(env).None? <==>
      !env.Array? || exists i :: 0 <= i < |env.items| && EnvEntry(env.items[i]).None?
  {
    if env.Array? {
      EntriesSpec(env.items);
    }
  }

  /** The value of the last entry named `n`, if any. */
  function LastWith(es: seq<(string, Value)>, n: string): Option<Value> {
    if es == [] then None
    else if es[|es| - 1].0 == n then Some(es[|es| - 1].1)
    else LastWith(es[..|es| - 1], n)
  }

  /** Nothing exactly when no entry has the name; otherwise the value of an
      entry with the name that no later entry shares. */
  lemma {:induction false} LastWithSpec(es: seq<(string, Value)>, n: string)
    ensures LastWith(es, n).None? <==> forall i :: 0 <= i < |es| ==> es[i].0 != n
    ensures LastWith(es, n).Some? ==>
      exists i :: 0 <= i < |es| && es[i] == (n, LastWith(es, n).value) && forall j :: i < j < |es| ==> es[j].0 != n
  {
    if es != [] {
      var last := |es| - 1;
      if es[last].0 != n {
        var init := es[..last];
        LastWithSpec(init, n);
        assert LastWith(es, n) == LastWith(init, n);
        if LastWith(init, n).Some? {
          var i :| 0 <= i < last && init[i] == (n, LastWith(init, n).value) &&
            forall j :: i < j < last ==> init[j].0 != n;
          assert es[i] == init[i];
          forall j | i < j < |es| ensures es[j].0 != n {
            if j < last {
              assert es[j] == init[j];
            }
          }
        } else {
          forall i | 0 <= i < |es| ensures es[i].0 != n {
            if i < last {
              assert es[i] == init[i];
            }
          }
        }
      } else {
        assert es[last] == (n, LastWith(es, n).value);
      }
    }
  }


  lemma {:induction false} BuildEnvSpec(es: seq<(string, Value)>)
    ensures UniqueKeys(BuildEnv(es))
    ensures |BuildEnv(es)| <= |es|
    ensures forall n :: Get(BuildEnv(es), n) == LastWith(es, n)
  {
    if es != [] {
      var init := es[..|es| - 1];
      var (k, v) := es[|es| - 1];
      BuildEnvSpec(init);
      InsertUnique(BuildEnv(init), k, v);
      forall n ensures Get(BuildEnv(es), n) == LastWith(es, n) {
        InsertGet(BuildEnv(init), k, v, n);
      }
    }
  }

  /** On success the result is an object with unique keys, which are
      exactly the elements' names; each name is bound to the value of the
      last element carrying it. */
  lemma EnvironmentLastWins(items: seq<Value>)
    requires EnvironmentOf(Array(items)).Some?
    ensures var r := EnvironmentOf(Array(items)).value;
      && r.Object? && UniqueKeys(r.members)
      && (forall i :: 0 <= i < |items| ==> EnvEntry(items[i]).Some?)
      && forall n ::
           Get(r.members, n) == LastWith(seq(|items|, i requires 0 <= i < |items| => EnvEntry(items[i]).value), n)
  {
    EntriesSpec(items);
    var es := Entries(items).value;
    BuildEnvSpec(es);
    assert es == seq(|items|, i requires 0 <= i < |items| => EnvEntry(items[i]).value);
  }

  // ---------------------------------------------------------------------
  // Pair::new
  // ---------------------------------------------------------------------

  datatype PairError =
    | InvalidInput  // no quote, no separator, or a malformed environment
    | SyntaxError   // the JSON parser rejected one half

  datatype Pair = Pair(a: Value, b: Value)

  const EnvironmentKey: string := "environment"

  /** The text `clean_string` hands to the parser: whitespace trimmed off
      both ends, then double quotes. */
  function CleanedText(s: string): (r: string)
    ensures |r| <= |s|
    ensures r != [] ==> !IsQuote(r[0]) && !IsQuote(r[|r| - 1])
  {
    TrimMatching(TrimMatching(s, IsWhitespace), IsQuote)
  }

  /** `clean_string`: trim whitespace, then double quotes, parse, and
      normalise every "environment" value. A syntax error comes from the
      parser alone; after a successful parse the call is rejected as
      invalid exactly when the normalisation fails, and otherwise returns
      what the normalisation gave. */
  function CleanString(s: string, parse: string -> Option<Value>): (r: Result<Value, PairError>)
    ensures r == Err(SyntaxError) <==> parse(CleanedText(s)).None?
    ensures parse(CleanedText(s)).Some? ==>
      && (r == Err(InvalidInput) <==> Replaced(EnvironmentKey, parse(CleanedText(s)).value, EnvironmentOf).None?)
      && (r.Ok? ==> Replaced(EnvironmentKey, parse(CleanedText(s)).value, EnvironmentOf) == Some(r.value))
  {
    match parse(CleanedText(s))
    case None => Err(SyntaxError)
    case Some(v) =>
      match Replaced(EnvironmentKey, v, EnvironmentOf)
      case None => Err(InvalidInput)
      case Some(w) => Ok(w)
  }

  /** A parsed object with unique keys: without an "environment" member it
      comes back unchanged; with one, the input is rejected as invalid
      exactly when that member is not an array or holds a malformed
      element, and otherwise only that member is replaced, by its
      normalised form. */
  lemma CleanStringObject(s: string, parse: string -> Option<Value>, ms: seq<Member>)
    requires parse(CleanedText(s)) == Some(Object(ms)) && UniqueKeys(ms)
    ensures !HasKey(ms, EnvironmentKey) ==> CleanString(s, parse) == Ok(Object(ms))
    ensures HasKey(ms, EnvironmentKey) ==>
      var env := Get(ms, EnvironmentKey).value;
      && (CleanString(s, parse) == Err(InvalidInput) <==>
            !env.Array? || exists i :: 0 <= i < |env.items| && EnvEntry(env.items[i]).None?)
      && (CleanString(s, parse).Ok? ==>
            var r := CleanString(s, parse).value;
            && r.Object?
            && Get(r.members, EnvironmentKey) == EnvironmentOf(env)
            && forall k :: k != EnvironmentKey ==> Get(r.members, k) == Get(ms, k))
  {
    ReplacedObject(EnvironmentKey, ms, EnvironmentOf);
    if HasKey(ms, EnvironmentKey) {
      var env := Get(ms, EnvironmentKey).value;
      EnvironmentFails(env);
      if EnvironmentOf(env).Some? {
        forall k ensures Get(Insert(ms, EnvironmentKey, EnvironmentOf(env).value), k) ==
                         if k == EnvironmentKey then EnvironmentOf(env) else Get(ms, k) {
          InsertGet(ms, EnvironmentKey, EnvironmentOf(env).value, k);
        }
      }
    }
  }

  /** `Pair::new`: trim to the quotes, split at the first separator, clean
      both halves. A syntax error can only come after a successful split. */
  function NewPair(input: string, parse: string -> Option<Value>): (r: Result<Pair, PairError>)
    ensures r.Ok? || r.error == SyntaxError ==>
      Trim(input).Some? && SplitAtSeparator(Trim(input).value).Some?
  {
    match Trim(input)
    case None => Err(InvalidInput)
    case Some(trimmed) =>
      match SplitAtSeparator(trimmed)
      case None => Err(InvalidInput)
      case Some((left, right)) =>
        match CleanString(left, parse)
        case Err(e) => Err(e)
        case Ok(a) =>
          match CleanString(right, parse)
          case Err(e) => Err(e)
          case Ok(b) => Ok(Pair(a, b))
  }

  /** The input is rejected as invalid when it holds no double quote or
      its quoted part no separator. Otherwise it succeeds exactly when both
      halves of the split clean, giving the pair of the cleaned halves, and
      it fails with the error of the first half that does not clean. */
  lemma NewPairSpec(input: string, parse: string -> Option<Value>)
    ensures '"' !in input ==> NewPair(input, parse) == Err(InvalidInput)
    ensures '"' in input && !Contains(Trim(input).value, Separator) ==> NewPair(input, parse) == Err(InvalidInput)
    ensures '"' in input && Contains(Trim(input).value, Separator) ==>
      var (left, right) := SplitAtSeparator(Trim(input).value).value;
      var ca, cb := CleanString(left, parse), CleanString(right, parse);
      && (NewPair(input, parse).Ok? <==> ca.Ok? && cb.Ok?)
      && (ca.Ok? && cb.Ok? ==> NewPair(input, parse).value == Pair(ca.value, cb.value))
      && (ca.Err? ==> NewPair(input, parse) == Err(ca.error))
      && (ca.Ok? && cb.Err? ==> NewPair(input, parse) == Err(cb.error))
  {
  }

  /** A quoted part that is `left + " => " + right`, with no separator
      starting before the end of `left`, and whose halves both clean, gives
      the pair of the cleaned halves. */
  lemma NewPairOfSplit(input: string, left: string, right: string, parse: string -> Option<Value>)
    requires Trim(input) == Some(left + Separator + right)
    requires forall k: nat :: k < |left| ==> !OccursAt(left + Separator + right, Separator, k)
    requires CleanString(left, parse).Ok? && CleanString(right, parse).Ok?
    ensures NewPair(input, parse) == Ok(Pair(CleanString(left, parse).value, CleanString(right, parse).value))
  {
    SplitAtSeparatorUnique(left + Separator + right, left, right);
  }
}
