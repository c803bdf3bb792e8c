/** String operations the handler and the card rely on: `trim`, `toLowerCase`,
    `includes`, `indexOf`, `lastIndexOf`, `substring`, `join`, and a global
    `replace` of a marker followed by `\s*`. Whitespace and case are ASCII only. */
module Text {

  /** The ASCII members of JavaScript's whitespace class (`\s`, `trim`). */
  predicate IsSpace(c: char) {
    c == ' ' || c == '\t' || c == '\n' || c == '\U{B}' || c == '\U{C}' || c == '\r'
  }

  /** Number of whitespace characters at the start of `s`. */
  function LeadingSpaces(s: string): (n: nat)
    ensures n <= |s|
    ensures forall i :: 0 <= i < n ==> IsSpace(s[i])
    ensures n < |s| ==> !IsSpace(s[n])
  {
    if |s| == 0 || !IsSpace(s[0]) then 0 else 1 + LeadingSpaces(s[1..])
  }

  /** Number of whitespace characters at the end of `s`. */
  function TrailingSpaces(s: string): (n: nat)
    ensures n <= |s|
    ensures forall i :: |s| - n <= i < |s| ==> IsSpace(s[i])
    ensures n < |s| ==> !IsSpace(s[|s| - n - 1])
  {
    if |s| == 0 || !IsSpace(s[|s| - 1]) then 0 else 1 + TrailingSpaces(s[..|s| - 1])
  }

  /** `s` without its leading whitespace (the `\s*` of a regular expression, taken greedily). */
  function TrimStart(s: string): (r: string)
    ensures |r| <= |s|
    ensures |r| > 0 ==> !IsSpace(r[0])
    ensures r == s[|s| - |r|..]
  {
    s[LeadingSpaces(s)..]
  }

  /** Dropping leading whitespace keeps every other character. */
  lemma TrimStartKeeps(s: string, c: char)
    requires !IsSpace(c)
    ensures multiset(TrimStart(s))[c] == multiset(s)[c]
  {
    var n := LeadingSpaces(s);
    assert s == s[..n] + s[n..];
    assert c !in s[..n];
  }

  /** JavaScript's `String.prototype.trim`. */
  function Trim(s: string): (r: string)
    ensures |r| <= |s|
    ensures |r| > 0 ==> !IsSpace(r[0]) && !IsSpace(r[|r| - 1])
  {
    var t := TrimStart(s);
    t[..|t| - TrailingSpaces(t)]
  }

  /** Trimming keeps every character that is not whitespace. */
  lemma TrimKeeps(s: string, c: char)
    requires !IsSpace(c)
    ensures multiset(Trim(s))[c] == multiset(s)[c]
  {
    TrimStartKeeps(s, c);
    var t := TrimStart(s);
    var m := TrailingSpaces(t);
    assert t == t[..|t| - m] + t[|t| - m..];
    assert c !in t[|t| - m..];
  }

  /** Only whitespace trims to the empty string. */
  lemma TrimEmptyIff(s: string)
    ensures Trim(s) == "" <==> forall i :: 0 <= i < |s| ==> IsSpace(s[i])
  {
    if forall i :: 0 <= i < |s| ==> IsSpace(s[i]) {
      assert LeadingSpaces(s) == |s|;
    } else {
      var i :| 0 <= i < |s| && !IsSpace(s[i]);
      TrimKeeps(s, s[i]);
      assert s[i] in multiset(s);
    }
  }

  /** ASCII `toLowerCase` of one character. */
  function LowerChar(c: char): char {
    if 'A' <= c <= 'Z' then (c as int - 'A' as int + 'a' as int) as char else c
  }

  /** ASCII `toLowerCase`. */
  function Lower(s: string): (r: string)
    ensures |r| == |s|
  {
    seq(|s|, i requires 0 <= i < |s| => LowerChar(s[i]))
  }

  /** Lower-casing twice is lower-casing once. */
  lemma LowerIdempotent(s: string)
    ensures Lower(Lower(s)) == Lower(s)
  {
  }

  /** `p` occurs in `s` starting at position `i`. */
  predicate OccursAt(s: string, p: string, i: int) {
    0 <= i <= |s| - |p| && s[i..i + |p|] == p
  }

  /** JavaScript's `includes` for a substring, scanning left to right. */
  function Contains(s: string, p: string): bool
    decreases |s|
  {
    if |p| > |s| then false else p <= s || Contains(s[1..], p)
  }

  /** `Contains` holds exactly when `p` occurs at some position of `s`. */
  lemma {:induction false} ContainsIff(s: string, p: string)
    ensures Contains(s, p) <==> exists i :: OccursAt(s, p, i)
    decreases |s|
  {
    if |p| > |s| {
    } else if p <= s {
      assert OccursAt(s, p, 0);
    } else {
      ContainsIff(s[1..], p);
      if Contains(s[1..], p) {
        var i :| OccursAt(s[1..], p, i);
        assert s[i + 1..i + 1 + |p|] == s[1..][i..i + |p|];
        assert OccursAt(s, p, i + 1);
      } else {
        assert s[..|p|] == s[0..0 + |p|];
        assert !OccursAt(s, p, 0);
        forall i | 1 <= i <= |s| - |p|
          ensures !OccursAt(s, p, i)
        {
          var t := s[1..];
          assert t[i - 1..i - 1 + |p|] == s[i..i + |p|];
          assert !OccursAt(t, p, i - 1);
        }
      }
    }
  }

  /** Every character of a contained string occurs in the containing one. */
  lemma {:induction false} ContainsChars(s: string, p: string, i: int)
    requires Contains(s, p) && 0 <= i < |p|
    ensures p[i] in s
    decreases |s|
  {
    if p <= s {
      assert s[i] == p[i];
    } else {
      ContainsChars(s[1..], p, i);
    }
  }

  /** A string lacking one of the characters of `p` does not contain `p`. */
  lemma NotContains(s: string, p: string, i: int)
    requires 0 <= i < |p| && p[i] !in s
    ensures !Contains(s, p)
  {
    if Contains(s, p) {
      ContainsChars(s, p, i);
    }
  }

  /** JavaScript's `indexOf` for one character: -1 when absent. */
  function IndexOf(s: string, c: char): (r: int)
    ensures -1 <= r < |s|
    ensures r == -1 <==> c !in s
    ensures r >= 0 ==> s[r] == c && c !in s[..r]
  {
    if |s| == 0 then -1
    else if s[0] == c then 0
    else
      var k := IndexOf(s[1..], c);
      if k == -1 then -1
      else
        assert s[..k + 1] == [s[0]] + s[1..][..k];
        k + 1
  }

  /** The first occurrence is the position holding `c` with no `c` before it. */
  lemma {:induction false} IndexOfAt(s: string, c: char, k: int)
    requires 0 <= k < |s| && s[k] == c && c !in s[..k]
    ensures IndexOf(s, c) == k
  {
    if k > 0 {
      assert s[0] == s[..k][0];
      assert s[1..][..k - 1] == s[..k][1..];
      IndexOfAt(s[1..], c, k - 1);
    }
  }

  /** JavaScript's `lastIndexOf` for one character: -1 when absent. */
  function LastIndexOf(s: string, c: char): (r: int)
    ensures -1 <= r < |s|
    ensures r == -1 <==> c !in s
    ensures r >= 0 ==> s[r] == c && c !in s[r + 1..]
  {
    if |s| == 0 then -1
    else if s[|s| - 1] == c then |s| - 1
    else
      var k := LastIndexOf(s[..|s| - 1], c);
      LastIndexOfStep(s, c, k);
      k
  }

  /** Dropping a last character other than `c` keeps the last occurrence of `c`. */
  lemma LastIndexOfStep(s: string, c: char, k: int)
    requires |s| > 0 && s[|s| - 1] != c && -1 <= k < |s| - 1
    requires k == -1 <==> c !in s[..|s| - 1]
    requires k >= 0 ==> s[k] == c && c !in s[..|s| - 1][k + 1..]
    ensures k == -1 <==> c !in s
    ensures k >= 0 ==> c !in s[k + 1..]
  {
    var t := s[..|s| - 1];
    assert s == t + [s[|s| - 1]];
    if k >= 0 {
      assert s[k + 1..] == t[k + 1..] + [s[|s| - 1]];
    }
  }

  /** A position clamped into `[0, len]`, as `substring` treats its arguments. */
  function Clamp(i: int, len: nat): (r: nat)
    ensures r <= len
    ensures 0 <= i <= len ==> r == i
  {
    if i < 0 then 0 else if i > len then len else i
  }

  /** JavaScript's `substring(start, end)`: both arguments are clamped and,
      when `start` exceeds `end`, the two are swapped. */
  function JsSubstring(s: string, start: int, end: int): (r: string)
    ensures 0 <= start <= end <= |s| ==> r == s[start..end]
    ensures 0 <= end <= start <= |s| ==> r == s[end..start]
  {
    var a := Clamp(start, |s|);
    var b := Clamp(end, |s|);
    if a <= b then s[a..b] else s[b..a]
  }

  /** JavaScript's `Array.prototype.join`. */
  function Join(xs: seq<string>, sep: string): string
  {
    if |xs| == 0 then ""
    else if |xs| == 1 then xs[0]
    else xs[0] + sep + Join(xs[1..], sep)
  }

  /** A character absent from every item and from the separator is absent from the join. */
  lemma {:induction false} JoinAvoids(xs: seq<string>, sep: string, c: char)
    requires forall i :: 0 <= i < |xs| ==> c !in xs[i]
    requires c !in sep
    ensures c !in Join(xs, sep)
  {
    if |xs| > 1 {
      JoinAvoids(xs[1..], sep, c);
    }
  }

  /** Position of the first occurrence of `sep` in `s`, or -1. */
  function FindSep(s: string, sep: string): (r: int)
    ensures -1 <= r
    ensures r >= 0 ==> r <= |s| - |sep| && s[r..r + |sep|] == sep
    decreases |s|
  {
    if |s| < |sep| then -1
    else if sep <= s then 0
    else
      var k := FindSep(s[1..], sep);
      if k < 0 then -1 else k + 1
  }

  /** Splits `s` at every occurrence of a non-empty `sep`; the empty string splits to no items. */
  function Split(s: string, sep: string): seq<string>
    requires |sep| > 0
    decreases |s|
  {
    if |s| == 0 then []
    else
      var k := FindSep(s, sep);
      if k < 0 then [s] else [s[..k]] + Split(s[k + |sep|..], sep)
  }

  /** `sep` cannot occur in a string lacking its first character. */
  lemma {:induction false} FindSepAbsent(s: string, sep: string)
    requires |sep| > 0 && sep[0] !in s
    ensures FindSep(s, sep) == -1
    decreases |s|
  {
    if |s| >= |sep| {
      assert s[0] != sep[0];
      FindSepAbsent(s[1..], sep);
    }
  }

  /** The first occurrence of `sep` in `x + sep + t` is the one right after `x`. */
  lemma {:induction false} FindSepAfter(x: string, sep: string, t: string)
    requires |sep| > 0 && sep[0] !in x
    ensures FindSep(x + sep + t, sep) == |x|
    decreases |x|
  {
    var s := x + sep + t;
    if |x| == 0 {
      assert s[..|sep|] == sep;
    } else {
      assert s[0] == x[0] != sep[0];
      assert s[1..] == x[1..] + sep + t;
      FindSepAfter(x[1..], sep, t);
    }
  }

  /** Splitting `x + sep + t` yields `x` followed by the split of `t`. */
  lemma SplitFirst(x: string, sep: string, t: string)
    requires |sep| > 0 && |x| > 0 && sep[0] !in x
    ensures Split(x + sep + t, sep) == [x] + Split(t, sep)
  {
    var s := x + sep + t;
    FindSepAfter(x, sep, t);
    assert s[..|x|] == x;
    assert s[|x| + |sep|..] == t;
  }

  /** Splitting undoes joining when the items are non-empty and avoid the separator's first character. */
  lemma {:induction false} SplitJoin(xs: seq<string>, sep: string)
    requires |sep| > 0
    requires forall i :: 0 <= i < |xs| ==> |xs[i]| > 0 && sep[0] !in xs[i]
    ensures Split(Join(xs, sep), sep) == xs
  {
    if |xs| == 1 {
      FindSepAbsent(xs[0], sep);
    } else if |xs| > 1 {
      SplitFirst(xs[0], sep, Join(xs[1..], sep));
      SplitJoin(xs[1..], sep);
      assert xs == [xs[0]] + xs[1..];
    }
  }

  /** JavaScript's global replace of the pattern marker-then-`\s*` by "": every
      occurrence of `marker`, found left to right without overlap, is deleted
      together with the whitespace that follows it. */
  function StripMarker(s: string, marker: string): string
    requires |marker| > 0
    decreases |s|
  {
    if |s| == 0 then ""
    else if marker <= s then StripMarker(TrimStart(s[|marker|..]), marker)
    else [s[0]] + StripMarker(s[1..], marker)
  }

  /** Stripping a marker never adds or removes a character that is neither
      whitespace nor part of the marker. */
  lemma {:induction false} StripMarkerKeeps(s: string, marker: string, c: char)
    requires |marker| > 0
    requires !IsSpace(c) && c !in marker
    ensures multiset(StripMarker(s, marker))[c] == multiset(s)[c]
    decreases |s|
  {
    if |s| == 0 {
    } else if marker <= s {
      var rest := s[|marker|..];
      assert s == marker + rest;
      TrimStartKeeps(rest, c);
      StripMarkerKeeps(TrimStart(rest), marker, c);
    } else {
      assert s == [s[0]] + s[1..];
      StripMarkerKeeps(s[1..], marker, c);
    }
  }

  /** A text without the marker's first character is left as it is. */
  lemma {:induction false} StripMarkerAbsent(s: string, marker: string)
    requires |marker| > 0 && marker[0] !in s
    ensures StripMarker(s, marker) == s
    decreases |s|
  {
    if |s| > 0 {
      assert s[0] != marker[0];
      StripMarkerAbsent(s[1..], marker);
      assert s == [s[0]] + s[1..];
    }
  }

  /** Where the marker does not start, the replace keeps the first character
      and goes on with the rest. */
  lemma StripMarkerSkip(s: string, marker: string)
    requires |marker| > 0 && |s| > 0 && !(marker <= s)
    ensures StripMarker(s, marker) == [s[0]] + StripMarker(s[1..], marker)
  {
  }

  /** Text that cannot start a marker passes through verbatim and in order:
      stripping works on what follows it alone. */
  lemma {:induction false} StripMarkerPrefix(a: string, b: string, marker: string)
    requires |marker| > 0 && marker[0] !in a
    ensures StripMarker(a + b, marker) == a + StripMarker(b, marker)
    decreases |a|
  {
    if |a| == 0 {
      assert a + b == b;
    } else {
      var s, x := a + b, StripMarker(b, marker);
      assert s[0] == a[0] != marker[0];
      StripMarkerSkip(s, marker);
      assert s[1..] == a[1..] + b;
      StripMarkerPrefix(a[1..], b, marker);
      assert [a[0]] + (a[1..] + x) == a + x;
    }
  }

  /** Leading whitespace followed by a visible character (or nothing) is
      exactly what `\s*` consumes. */
  lemma {:induction false} LeadingSpacesPrefix(ws: string, b: string)
    requires forall i :: 0 <= i < |ws| ==> IsSpace(ws[i])
    requires |b| == 0 || !IsSpace(b[0])
    ensures LeadingSpaces(ws + b) == |ws|
    ensures TrimStart(ws + b) == b
    decreases |ws|
  {
    if |ws| == 0 {
      assert ws + b == b;
    } else {
      assert (ws + b)[1..] == ws[1..] + b;
      LeadingSpacesPrefix(ws[1..], b);
    }
  }

  /** A marker at the start is deleted together with the whitespace after it,
      and nothing more. */
  lemma StripMarkerAtStart(ws: string, b: string, marker: string)
    requires |marker| > 0
    requires forall i :: 0 <= i < |ws| ==> IsSpace(ws[i])
    requires |b| == 0 || !IsSpace(b[0])
    ensures StripMarker(marker + ws + b, marker) == StripMarker(b, marker)
  {
    var s := marker + ws + b;
    assert marker <= s;
    assert s[|marker|..] == ws + b;
    LeadingSpacesPrefix(ws, b);
  }

  /** With `c` absent from `a`, the first `c` in `a + b` is the head of `b`. */
  lemma IndexOfAfter(a: string, b: string, c: char)
    requires c !in a && |b| > 0 && b[0] == c
    ensures IndexOf(a + b, c) == |a|
  {
    var s := a + b;
    assert s[|a|] == c && s[..|a|] == a;
    assert c in s;
  }

  /** With `c` absent from `b`, the last `c` in `a + b` is the end of `a`. */
  lemma LastIndexOfBefore(a: string, b: string, c: char)
    requires |a| > 0 && a[|a| - 1] == c && c !in b
    ensures LastIndexOf(a + b, c) == |a| - 1
  {
    var s := a + b;
    assert s[|a| - 1] == c && s[|a|..] == b;
    assert c in s;
  }

  /** The first character of a non-empty result is the input's first
      character, unless the input starts with the marker. */
  lemma StripMarkerHead(s: string, marker: string)
    requires |marker| > 0
    ensures |StripMarker(s, marker)| > 0 ==>
      |s| > 0 && (marker <= s || StripMarker(s, marker)[0] == s[0])
  {
  }

  /** Starts with two backticks. */
  predicate TwoTicks(s: string) {
    |s| >= 2 && s[0] == '`' && s[1] == '`'
  }

  /** A fence at the start is three backticks at positions 0, 1 and 2. */
  lemma FenceAt(s: string)
    ensures OccursAt(s, "```", 0) <==> |s| >= 3 && s[0] == '`' && TwoTicks(s[1..])
    ensures "```" <= s <==> OccursAt(s, "```", 0)
  {
    if |s| >= 3 {
      assert s[0..3] == [s[0], s[1], s[2]];
      assert s[..3] == s[0..3];
    }
  }

  /** Removing fences never makes two backticks the start of the text. */
  lemma FenceStripHead(s: string)
    ensures TwoTicks(StripMarker(s, "```")) ==> TwoTicks(s)
  {
    if |s| > 0 && !("```" <= s) {
      var r := StripMarker(s[1..], "```");
      assert StripMarker(s, "```") == [s[0]] + r;
      StripMarkerHead(s[1..], "```");
    }
  }

  /** After the global replace of "```" (with its trailing whitespace) no
      "```" is left anywhere: a removal never joins backticks into a new fence. */
  lemma {:induction false} NoFenceLeft(s: string)
    ensures forall i :: !OccursAt(StripMarker(s, "```"), "```", i)
    decreases |s|
  {
    if |s| == 0 {
    } else if "```" <= s {
      NoFenceLeft(TrimStart(s[3..]));
    } else {
      var r := StripMarker(s[1..], "```");
      var out := [s[0]] + r;
      assert StripMarker(s, "```") == out;
      NoFenceLeft(s[1..]);
      FenceStripHead(s[1..]);
      FenceAt(s);
      FenceAt(out);
      assert out[1..] == r;
      forall i | 1 <= i <= |out| - 3
        ensures !OccursAt(out, "```", i)
      {
        assert out[i..i + 3] == r[i - 1..i + 2];
        assert !OccursAt(r, "```", i - 1);
      }
    }
  }
}
