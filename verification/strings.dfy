/**
 The string operations the converter builds its keys with: `indexOf`, `split` on a
 non-empty separator, `join`, and `[prefix, key].filter(Boolean).join(d)`.
 */
module Strings {
  import opened Wrappers

  /** `d` occurs in `s` starting at position `j`. */
  predicate OccursAt(s: string, d: string, j: nat) {
    j + |d| <= |s| && s[j..j + |d|] == d
  }

  lemma OccursShift(s: string, d: string, j: nat)
    requires |s| > 0
    ensures OccursAt(s, d, j + 1) <==> OccursAt(s[1..], d, j)
  {
    if j + 1 + |d| <= |s| {
      assert s[1..][j..j + |d|] == s[j + 1..j + 1 + |d|];
    }
  }

  /** An occurrence inside `a` is an occurrence inside `a + b`, and conversely for windows within `a`. */
  lemma OccursExtend(a: string, b: string, d: string, j: nat)
    requires j + |d| <= |a|
    ensures OccursAt(a + b, d, j) <==> OccursAt(a, d, j)
  {
    assert (a + b)[j..j + |d|] == a[j..j + |d|];
  }

  /** `s.indexOf(d)`: the first position at which `d` occurs in `s`, if any. */
  function IndexOf(s: string, d: string): (r: Option<nat>)
    requires |d| > 0
    ensures r.Some? ==> OccursAt(s, d, r.value)
    ensures forall j: nat :: r.None? || j < r.value ==> !OccursAt(s, d, j)
    decreases |s|
  {
    if |s| < |d| then None
    else if s[..|d|] == d then Some(0)
    else
      assert !OccursAt(s, d, 0);
      assert forall j: nat :: 0 < j ==> (OccursAt(s, d, j) <==> OccursAt(s[1..], d, j - 1)) by {
        forall j: nat | 0 < j ensures OccursAt(s, d, j) <==> OccursAt(s[1..], d, j - 1) {
          OccursShift(s, d, j - 1);
        }
      }
      match IndexOf(s[1..], d)
      case None => None
      case Some(i) => Some(i + 1)
  }

  /** The first occurrence is the one `IndexOf` reports. */
  lemma IndexOfLeast(s: string, d: string, i: nat)
    requires |d| > 0
    requires OccursAt(s, d, i)
    requires forall j: nat :: j < i ==> !OccursAt(s, d, j)
    ensures IndexOf(s, d) == Some(i)
  {
  }

  /** Appending text after a first occurrence does not move it. */
  lemma {:induction false} IndexOfExtend(a: string, b: string, d: string)
    requires |d| > 0
    requires IndexOf(a, d).Some?
    ensures IndexOf(a + b, d) == IndexOf(a, d)
  {
    var i := IndexOf(a, d).value;
    OccursExtend(a, b, d, i);
    forall j: nat | j < i ensures !OccursAt(a + b, d, j) {
      OccursExtend(a, b, d, j);
    }
    IndexOfLeast(a + b, d, i);
  }

  /** `s.split(d)` for a non-empty separator: the pieces between successive first occurrences. */
  function Split(s: string, d: string): (r: seq<string>)
    requires |d| > 0
    ensures |r| >= 1
    decreases |s|
  {
    match IndexOf(s, d)
    case None => [s]
    case Some(i) => [s[..i]] + Split(s[i + |d|..], d)
  }

  /** No piece of `pieces` holds the separator. */
  predicate SeparatorFree(pieces: seq<string>, d: string)
    requires |d| > 0
  {
    forall k :: 0 <= k < |pieces| ==> IndexOf(pieces[k], d).None?
  }

  /** No piece of a split holds the separator. */
  lemma {:induction false} SplitPiecesSeparatorFree(s: string, d: string)
    requires |d| > 0
    ensures SeparatorFree(Split(s, d), d)
    decreases |s|
  {
    if IndexOf(s, d).Some? {
      var i := IndexOf(s, d).value;
      var rest := s[i + |d|..];
      SplitAtFirst(s, d);
      SplitPiecesSeparatorFree(rest, d);
      HeadSeparatorFree(s, d);
      SeparatorFreeCons(s[..i], Split(rest, d), d);
      assert Split(s, d) == [s[..i]] + Split(rest, d);
    } else {
      assert Split(s, d) == [s];
    }
  }

  lemma SeparatorFreeCons(head: string, pieces: seq<string>, d: string)
    requires |d| > 0
    requires IndexOf(head, d).None? && SeparatorFree(pieces, d)
    ensures SeparatorFree([head] + pieces, d)
  {
    forall k | 0 < k < |pieces| + 1 ensures IndexOf(([head] + pieces)[k], d).None? {
      assert ([head] + pieces)[k] == pieces[k - 1];
    }
  }

  /** The text before the first occurrence of the separator does not hold it. */
  lemma HeadSeparatorFree(s: string, d: string)
    requires |d| > 0
    requires IndexOf(s, d).Some?
    ensures IndexOf(s[..IndexOf(s, d).value], d).None?
  {
    var i := IndexOf(s, d).value;
    var head := s[..i];
    assert head + s[i..] == s;
    forall j: nat | j + |d| <= |head| ensures !OccursAt(head, d, j) {
      OccursExtend(head, s[i..], d, j);
    }
  }

  /**
   Every piece of a split but the last is separable: the cut after it is the first
   occurrence of the separator, as `split` takes them left to right.
   */
  predicate SeparableBeforeLast(pieces: seq<string>, d: string)
    requires |d| > 0
  {
    forall k :: 0 <= k < |pieces| - 1 ==> Separable(pieces[k], d)
  }

  lemma {:induction false} SplitPiecesSeparable(s: string, d: string)
    requires |d| > 0
    ensures SeparableBeforeLast(Split(s, d), d)
    decreases |s|
  {
    if IndexOf(s, d).Some? {
      var i := IndexOf(s, d).value;
      var rest := s[i + |d|..];
      SplitAtFirst(s, d);
      SplitPiecesSeparable(rest, d);
      HeadSeparable(s, d);
      SeparableCons(s[..i], Split(rest, d), d);
      assert Split(s, d) == [s[..i]] + Split(rest, d);
    } else {
      assert Split(s, d) == [s];
    }
  }

  lemma SeparableCons(head: string, pieces: seq<string>, d: string)
    requires |d| > 0
    requires Separable(head, d) && SeparableBeforeLast(pieces, d)
    ensures SeparableBeforeLast([head] + pieces, d)
  {
    forall k | 0 < k < |pieces| ensures Separable(([head] + pieces)[k], d) {
      assert ([head] + pieces)[k] == pieces[k - 1];
    }
  }

  /** The text before the first occurrence of the separator is separable. */
  lemma HeadSeparable(s: string, d: string)
    requires |d| > 0
    requires IndexOf(s, d).Some?
    ensures Separable(s[..IndexOf(s, d).value], d)
  {
    var i := IndexOf(s, d).value;
    var head := s[..i];
    var t := head + d;
    SeparatorAtFirst(s, d);
    forall j: nat | j < i ensures !OccursAt(t, d, j) {
      OccursExtend(t, s[i + |d|..], d, j);
    }
    assert t[i..i + |d|] == d;
    IndexOfLeast(t, d, i);
  }

  /** `segments.join(d)`. */
  function Join(segments: seq<string>, d: string): string {
    if |segments| == 0 then ""
    else if |segments| == 1 then segments[0]
    else segments[0] + d + Join(segments[1..], d)
  }

  lemma JoinCons(x: string, rest: seq<string>, d: string)
    requires |rest| >= 1
    ensures Join([x] + rest, d) == x + d + Join(rest, d)
  {
    assert ([x] + rest)[1..] == rest;
  }

  lemma {:induction false} JoinAppend(segments: seq<string>, x: string, d: string)
    requires |segments| >= 1
    ensures Join(segments + [x], d) == Join(segments, d) + d + x
    decreases |segments|
  {
    if |segments| == 1 {
      assert segments + [x] == [segments[0], x];
      assert [segments[0], x][1..] == [x];
    } else {
      assert (segments + [x])[1..] == segments[1..] + [x];
      JoinAppend(segments[1..], x, d);
    }
  }

  /** A split with an occurrence: the piece before the first one, then the split of the rest. */
  lemma SplitAtFirst(s: string, d: string)
    requires |d| > 0
    requires IndexOf(s, d).Some?
    ensures Split(s, d) == [s[..IndexOf(s, d).value]] + Split(s[IndexOf(s, d).value + |d|..], d)
  {
  }

  /** The string around the first occurrence of the separator. */
  lemma SeparatorAtFirst(s: string, d: string)
    requires |d| > 0
    requires IndexOf(s, d).Some?
    ensures s == s[..IndexOf(s, d).value] + d + s[IndexOf(s, d).value + |d|..]
  {
    var i := IndexOf(s, d).value;
    assert s[i..i + |d|] == d;
    assert s == s[..i] + s[i..i + |d|] + s[i + |d|..];
  }

  /** Joining the pieces of a split gives back the string. */
  lemma {:induction false} JoinSplit(s: string, d: string)
    requires |d| > 0
    ensures Join(Split(s, d), d) == s
    decreases |s|
  {
    if IndexOf(s, d).Some? {
      var i := IndexOf(s, d).value;
      var rest := s[i + |d|..];
      SplitAtFirst(s, d);
      SeparatorAtFirst(s, d);
      JoinSplit(rest, d);
      JoinCons(s[..i], Split(rest, d), d);
    }
  }

  /**
   A name that a split recovers from a join: `d` does not occur in `name + d`
   before the appended separator (for "__": no "__" inside and no trailing '_').
   */
  predicate Separable(name: string, d: string)
    requires |d| > 0
  {
    IndexOf(name + d, d) == Some(|name|)
  }

  lemma SeparableHasNoSeparator(name: string, d: string)
    requires |d| > 0
    requires Separable(name, d)
    ensures IndexOf(name, d).None?
  {
    if IndexOf(name, d).Some? {
      var j := IndexOf(name, d).value;
      OccursExtend(name, d, d, j);
      assert false;
    }
  }

  /**
   Splitting a join gives back the names when every name but the last is separable and
   the last holds no separator: the converse of `SplitPiecesSeparable` and
   `SplitPiecesSeparatorFree`.
   */
  lemma {:induction false} SplitJoin(segments: seq<string>, d: string)
    requires |d| > 0
    requires |segments| >= 1
    requires SeparableBeforeLast(segments, d)
    requires IndexOf(segments[|segments| - 1], d).None?
    ensures Split(Join(segments, d), d) == segments
    decreases |segments|
  {
    var x := segments[0];
    if |segments| > 1 {
      var rest := Join(segments[1..], d);
      IndexOfExtend(x + d, rest, d);
      assert x + d + rest == Join(segments, d);
      var s := Join(segments, d);
      assert s[..|x|] == x;
      assert s[|x| + |d|..] == rest;
      SplitJoin(segments[1..], d);
      assert segments == [x] + segments[1..];
    }
  }

  lemma OccursDoubleUnderscore(s: string, j: nat)
    ensures OccursAt(s, "__", j) <==> j + 2 <= |s| && s[j] == '_' && s[j + 1] == '_'
  {
    if j + 2 <= |s| {
      assert s[j..j + 2] == [s[j], s[j + 1]];
    }
  }

  /** Separability for the delimiter "__" in everyday terms. */
  lemma SeparableDoubleUnderscore(name: string)
    ensures Separable(name, "__") <==> IndexOf(name, "__").None? && (name == [] || name[|name| - 1] != '_')
  {
    if Separable(name, "__") {
      SeparableOnlyIf(name);
    }
    if IndexOf(name, "__").None? && (name == [] || name[|name| - 1] != '_') {
      SeparableIf(name);
    }
  }

  lemma SeparableOnlyIf(name: string)
    requires Separable(name, "__")
    ensures IndexOf(name, "__").None? && (name == [] || name[|name| - 1] != '_')
  {
    SeparableHasNoSeparator(name, "__");
    if |name| > 0 {
      OccursDoubleUnderscore(name + "__", |name| - 1);
    }
  }

  lemma SeparableIf(name: string)
    requires IndexOf(name, "__").None? && (name == [] || name[|name| - 1] != '_')
    ensures Separable(name, "__")
  {
    var s := name + "__";
    var n := |name|;
    OccursDoubleUnderscore(s, n);
    forall j: nat | j < n ensures !OccursAt(s, "__", j) {
      if j + 2 <= n {
        OccursExtend(name, "__", "__", j);
      } else {
        OccursDoubleUnderscore(s, j);
      }
    }
    IndexOfLeast(s, "__", n);
  }

  /**
   `names.filter(Boolean)`: the names without the empty ones. Every non-empty name is
   kept, so names that are all non-empty come through unchanged; `DropEmptyCounts`
   states that each is kept as often as it occurs, `DropEmptyConcat` that the order is kept.
   */
  function DropEmpty(names: seq<string>): (r: seq<string>)
    ensures forall x :: x in r <==> x in names && x != ""
    ensures forall k :: 0 <= k < |r| ==> r[k] != ""
    ensures |r| <= |names|
    ensures (forall k :: 0 <= k < |names| ==> names[k] != "") ==> r == names
  {
    if names == [] then []
    else
      var init := names[..|names| - 1];
      var last := names[|names| - 1];
      assert names == init + [last];
      if last == "" then DropEmpty(init) else DropEmpty(init) + [last]
  }

  lemma ConcatInit(a: seq<string>, b: seq<string>)
    requires b != []
    ensures (a + b)[..|a + b| - 1] == a + b[..|b| - 1]
    ensures (a + b)[|a + b| - 1] == b[|b| - 1]
  {
  }

  /** Each non-empty name occurs in the result as often as in the input; no empty one does. */
  lemma {:induction false} DropEmptyCounts(names: seq<string>)
    ensures multiset(DropEmpty(names)) == multiset(names)["" := 0]
  {
    if names != [] {
      var init, last := names[..|names| - 1], names[|names| - 1];
      DropEmptyCounts(init);
      assert names == init + [last];
      assert multiset(names) == multiset(init) + multiset{last};
    }
  }

  lemma DropEmptySnoc(names: seq<string>, x: string)
    ensures DropEmpty(names + [x]) == DropEmpty(names) + (if x == "" then [] else [x])
  {
    assert (names + [x])[..|names|] == names;
  }

  /**
   Filtering a concatenation filters each part and keeps them in order; with
   `DropEmptySnoc` this fixes the result as the non-empty names in their own order.
   */
  lemma {:induction false} DropEmptyConcat(a: seq<string>, b: seq<string>)
    ensures DropEmpty(a + b) == DropEmpty(a) + DropEmpty(b)
    decreases |b|
  {
    if b == [] {
      assert a + b == a;
    } else {
      var n := |b| - 1;
      var init, x := b[..n], b[n];
      var tail := if x == "" then [] else [x];
      DropEmptyConcat(a, init);
      ConcatInit(a, b);
      assert DropEmpty(a + b) == DropEmpty(a + init) + tail;
      assert DropEmpty(b) == DropEmpty(init) + tail;
    }
  }

  /** The key of a property reached through `names`: the non-empty names joined by `d`. */
  function JoinNames(names: seq<string>, d: string): string {
    Join(DropEmpty(names), d)
  }

  /**
   `[prefix, key].filter(Boolean).join(d)`: the key of a property named `key` under
   `prefix`, with no separator next to an empty part.
   */
  function JoinPath(prefix: string, key: string, d: string): (r: string)
    ensures prefix == "" ==> r == key
    ensures prefix != "" && key == "" ==> r == prefix
    ensures prefix != "" && key != "" ==> r == prefix + d + key
  {
    DropEmptySnoc([], prefix);
    DropEmptySnoc([prefix], key);
    assert [prefix, key] == [prefix] + [key];
    var kept := DropEmpty([prefix, key]);
    assert kept == (if prefix == "" then [] else [prefix]) + (if key == "" then [] else [key]);
    assert prefix != "" && key != "" ==> kept == [prefix] + [key];
    JoinCons(prefix, [key], d);
    Join(kept, d)
  }

  lemma {:induction false} JoinNonEmpty(segments: seq<string>, d: string)
    requires |segments| >= 1
    requires segments[0] != ""
    ensures Join(segments, d) != ""
  {
    assert |Join(segments, d)| >= |segments[0]|;
  }

  /** Extending the prefix by one name is the same as joining one more name. */
  lemma {:induction false} JoinPathExtends(names: seq<string>, key: string, d: string)
    ensures JoinPath(JoinNames(names, d), key, d) == JoinNames(names + [key], d)
  {
    var kept := DropEmpty(names);
    assert (names + [key])[..|names|] == names;
    if kept == [] {
      assert JoinNames(names, d) == "";
    } else {
      JoinNonEmpty(kept, d);
      if key != "" {
        JoinAppend(kept, key, d);
      }
    }
  }
}
