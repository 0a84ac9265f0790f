/** The handful of JavaScript string built-ins the phonebook relies on:
    `trim`, `toLowerCase`, `toUpperCase`, `slice`, `includes` and
    `split(/\s+/)`, over strings of Unicode scalar values. */
module Text {

  /** JavaScript's WhiteSpace and LineTerminator code points: the set both
      `String.prototype.trim` strips and the regular-expression class `\s`
      matches (tab, LF, VT, FF, CR, the space separators of category Zs,
      the byte-order mark, and the line and paragraph separators). */
  predicate IsSpace(c: char)
  {
    || c == '\t' || c == '\n' || c == '\U{0B}' || c == '\U{0C}' || c == '\r'
    || c == ' ' || c == '\U{A0}' || c == '\U{1680}'
    || ('\U{2000}' <= c <= '\U{200A}')
    || c == '\U{2028}' || c == '\U{2029}' || c == '\U{202F}' || c == '\U{205F}'
    || c == '\U{3000}' || c == '\U{FEFF}'
  }

  /** The regular-expression class `\d`: the ASCII digits only. */
  predicate IsDigit(c: char)
  {
    '0' <= c <= '9'
  }

  predicate IsWordChar(c: char)
  {
    !IsSpace(c)
  }

  predicate AllSpace(s: string)
  {
    forall i :: 0 <= i < |s| ==> IsSpace(s[i])
  }

  predicate NoSpace(s: string)
  {
    forall i :: 0 <= i < |s| ==> !IsSpace(s[i])
  }

  /** True of a string with no white space at either end, as `trim` leaves it. */
  predicate Trimmed(s: string)
  {
    s == [] || (!IsSpace(s[0]) && !IsSpace(s[|s| - 1]))
  }

  function LowerChar(c: char): char
  {
    if 'A' <= c <= 'Z' then (c as int + 32) as char else c
  }

  function UpperChar(c: char): char
  {
    if 'a' <= c <= 'z' then (c as int - 32) as char else c
  }

  /** `toLowerCase`, restricted to the ASCII letters. */
  function Lower(s: string): string
  {
    seq(|s|, i requires 0 <= i < |s| => LowerChar(s[i]))
  }

  /** `toUpperCase`, restricted to the ASCII letters. */
  function Upper(s: string): string
  {
    seq(|s|, i requires 0 <= i < |s| => UpperChar(s[i]))
  }

  function Min(a: int, b: int): int
  {
    if a <= b then a else b
  }

  /** How `slice` reads one bound: a negative bound counts back from the
      end, and the result is clamped to `0..len`. */
  function SliceBound(x: int, len: nat): (b: nat)
    ensures b <= len
  {
    if x < 0 then (if len + x < 0 then 0 else len + x)
    else if x > len then len
    else x
  }

  /** `s.slice(lo, hi)`. */
  function Slice(s: string, lo: int, hi: int): (r: string)
    ensures 0 <= lo <= hi <= |s| ==> r == s[lo..hi]
    ensures 0 <= lo && |s| <= hi ==> r == s[Min(lo, |s|)..]
    ensures 0 <= lo <= hi ==> |r| == Min(hi, |s|) - Min(lo, |s|)
  {
    var a := SliceBound(lo, |s|);
    var b := SliceBound(hi, |s|);
    if a < b then s[a..b] else []
  }

  /** `s.slice(0, n)` for a non-negative `n`: the first `n` characters, or all of them. */
  function Take(s: string, n: nat): (r: string)
    ensures |r| == Min(n, |s|)
    ensures r <= s
    ensures forall c :: c in r ==> c in s
  {
    Slice(s, 0, n)
  }

  /** The length of the longest prefix of `s` whose characters all satisfy `p`. */
  function Span(s: string, p: char -> bool): (n: nat)
    ensures n <= |s|
    ensures forall k :: 0 <= k < n ==> p(s[k])
    ensures n < |s| ==> !p(s[n])
  {
    if |s| > 0 && p(s[0]) then 1 + Span(s[1..], p) else 0
  }

  /** The length of the longest suffix of `s` whose characters all satisfy `p`. */
  function SpanBack(s: string, p: char -> bool): (n: nat)
    ensures n <= |s|
    ensures forall k :: |s| - n <= k < |s| ==> p(s[k])
    ensures n < |s| ==> !p(s[|s| - 1 - n])
  {
    if |s| > 0 && p(s[|s| - 1]) then 1 + SpanBack(s[..|s| - 1], p) else 0
  }

  function TrimStart(s: string): string
  {
    s[Span(s, IsSpace)..]
  }

  function TrimEnd(s: string): string
  {
    s[..|s| - SpanBack(s, IsSpace)]
  }

  /** `s.trim()`: the white space at both ends removed, and nothing else. */
  function Trim(s: string): (r: string)
    ensures Trimmed(r)
    ensures exists i, j :: 0 <= i <= j <= |s| && r == s[i..j] && AllSpace(s[..i]) && AllSpace(s[j..])
  {
    var t := TrimStart(s);
    var n := Span(s, IsSpace);
    var m := SpanBack(t, IsSpace);
    assert t == s[n..];
    assert TrimEnd(t) == s[n..n + |t| - m];
    assert AllSpace(s[n + |t| - m..]) by {
      var v := s[n + |t| - m..];
      forall k | 0 <= k < |v|
        ensures IsSpace(v[k])
      {
        assert v[k] == t[|t| - m + k];
      }
    }
    TrimEnd(t)
  }

  /** The characters of an all-white-space prefix and a trimmed middle are
      exactly what `trim` separates. */
  lemma {:induction false} TrimFrame(l: string, w: string, t: string)
    requires AllSpace(l) && AllSpace(t) && Trimmed(w)
    ensures Trim(l + w + t) == w
  {
    var s := l + w + t;
    var n := Span(s, IsSpace);
    if w == [] {
      assert AllSpace(s) by {
        forall k | 0 <= k < |s| ensures IsSpace(s[k]) {
          if k < |l| { assert s[k] == l[k]; } else { assert s[k] == t[k - |l|]; }
        }
      }
      assert n == |s|;
      assert TrimStart(s) == [];
    } else {
      assert s[|l|] == w[0];
      assert forall k :: 0 <= k < |l| ==> s[k] == l[k];
      assert n == |l|;
      assert TrimStart(s) == w + t;
      var u := w + t;
      var m := SpanBack(u, IsSpace);
      assert u[|w| - 1] == w[|w| - 1];
      assert forall k :: 0 <= k < |t| ==> u[|w| + k] == t[k];
      assert m == |t|;
      assert u[..|u| - m] == w;
    }
  }

  /** A string with no white space at either end is its own trim. */
  lemma TrimOfTrimmed(s: string)
    requires Trimmed(s)
    ensures Trim(s) == s
  {
    TrimFrame([], s, []);
    assert [] + s + [] == s;
  }

  lemma TrimIdempotent(s: string)
    ensures Trim(Trim(s)) == Trim(s)
  {
    TrimFrame([], Trim(s), []);
    assert [] + Trim(s) + [] == Trim(s);
  }

  lemma {:induction false} TrimBlank(s: string)
    ensures Trim(s) == [] <==> AllSpace(s)
  {
    if AllSpace(s) {
      TrimFrame(s, [], []);
      assert s + [] + [] == s;
    }
    if Trim(s) == [] {
      var i, j :| 0 <= i <= j <= |s| && Trim(s) == s[i..j] && AllSpace(s[..i]) && AllSpace(s[j..]);
      forall k | 0 <= k < |s|
        ensures IsSpace(s[k])
      {
        if k < i {
          assert s[..i][k] == s[k];
        } else {
          assert s[j..][k - j] == s[k];
        }
      }
    }
  }

  /** `s.includes(q)`, searching left to right. */
  function Includes(s: string, q: string): bool
    decreases |s|
  {
    q <= s || (|s| > 0 && Includes(s[1..], q))
  }

  /** `q` occurs in `s` at some position. */
  ghost predicate Occurs(q: string, s: string)
  {
    exists i, j :: 0 <= i <= j <= |s| && s[i..j] == q
  }

  lemma IncludesMeansOccurs(s: string, q: string)
    ensures Includes(s, q) <==> Occurs(q, s)
  {
    if Includes(s, q) {
      IncludesThenOccurs(s, q);
    }
    if Occurs(q, s) {
      OccursThenIncludes(s, q);
    }
  }

  lemma {:induction false} IncludesThenOccurs(s: string, q: string)
    requires Includes(s, q)
    ensures Occurs(q, s)
    decreases |s|
  {
    if q <= s {
      OccursAt(q, s, 0, |q|);
    } else {
      var t := s[1..];
      IncludesThenOccurs(t, q);
      var i, j :| 0 <= i <= j <= |t| && t[i..j] == q;
      assert t[i..j] == s[i + 1..j + 1];
      OccursAt(q, s, i + 1, j + 1);
    }
  }

  lemma OccursAt(q: string, s: string, i: nat, j: nat)
    requires i <= j <= |s| && s[i..j] == q
    ensures Occurs(q, s)
  {
  }

  lemma {:induction false} OccursThenIncludes(s: string, q: string)
    requires Occurs(q, s)
    ensures Includes(s, q)
    decreases |s|
  {
    var i, j :| 0 <= i <= j <= |s| && s[i..j] == q;
    if i == 0 {
      assert q <= s;
    } else {
      assert s[1..][i - 1..j - 1] == q;
      OccursThenIncludes(s[1..], q);
    }
  }

  /** `s.split(/\s+/)`: the pieces between maximal runs of white space. A
      leading or trailing run yields an empty first or last piece, and a
      string without white space, the empty one included, is one piece. */
  function SplitSpace(s: string): (parts: seq<string>)
    ensures |parts| >= 1
    decreases |s|
  {
    var i := Span(s, IsWordChar);
    if i == |s| then [s]
    else
      var j := i + Span(s[i..], IsSpace);
      [s[..i]] + SplitSpace(s[j..])
  }

  lemma SplitWord(w: string)
    requires NoSpace(w)
    ensures SplitSpace(w) == [w]
  {
  }

  /** The first piece of a word followed by nothing or by white space is
      the word. */
  lemma SplitFirst(w: string, s: string)
    requires NoSpace(w) && (s == [] || IsSpace(s[0]))
    ensures SplitSpace(w + s)[0] == w
  {
    SpanWord(w, s);
    assert (w + s)[..|w|] == w;
  }

  /** A word followed by nothing or by white space: the word is the
      longest white-space-free prefix. */
  lemma SpanWord(w: string, s: string)
    requires NoSpace(w) && (s == [] || IsSpace(s[0]))
    ensures Span(w + s, IsWordChar) == |w|
  {
    assert forall k :: 0 <= k < |w| ==> (w + s)[k] == w[k];
    if s != [] {
      assert (w + s)[|w|] == s[0];
    }
  }

  /** White space followed by nothing or by a non-space: the white space is
      the longest all-space prefix. */
  lemma SpanSep(sep: string, rest: string)
    requires AllSpace(sep) && (rest == [] || !IsSpace(rest[0]))
    ensures Span(sep + rest, IsSpace) == |sep|
  {
    assert forall k :: 0 <= k < |sep| ==> (sep + rest)[k] == sep[k];
    if rest != [] {
      assert (sep + rest)[|sep|] == rest[0];
    }
  }

  /** A word, a run of white space and a rest that does not start with
      white space split into the word followed by the pieces of the rest. */
  lemma SplitCons(w: string, sep: string, rest: string)
    requires NoSpace(w) && |sep| > 0 && AllSpace(sep)
    requires rest == [] || !IsSpace(rest[0])
    ensures SplitSpace(w + sep + rest) == [w] + SplitSpace(rest)
  {
    var s := w + sep + rest;
    assert s == w + (sep + rest);
    SpanWord(w, sep + rest);
    assert s[|w|..] == sep + rest;
    SpanSep(sep, rest);
    assert s[..|w|] == w;
    assert s[|w| + |sep|..] == rest;
  }

  /** Every piece of a trimmed string that has two or more pieces is a
      non-empty word. */
  lemma {:induction false} SplitTrimmedWords(s: string)
    requires Trimmed(s)
    requires |SplitSpace(s)| >= 2
    ensures SplitSpace(s)[0] != [] && SplitSpace(s)[1] != []
  {
    var i := Span(s, IsWordChar);
    assert i < |s|;
    var j := i + Span(s[i..], IsSpace);
    assert SplitSpace(s) == [s[..i]] + SplitSpace(s[j..]);
    SplitFirstPiece(s);
    SpaceRunEndsBeforeEnd(s, i);
    SplitFirstPiece(s[j..]);
  }

  /** In a trimmed string, a run of white space starting inside it stops
      at a non-space before the end. */
  lemma SpaceRunEndsBeforeEnd(s: string, i: nat)
    requires Trimmed(s) && i < |s|
    ensures var j := i + Span(s[i..], IsSpace); j < |s| && !IsSpace(s[j])
  {
    var t := s[i..];
    assert t[|t| - 1] == s[|s| - 1];
    var n := Span(t, IsSpace);
    assert n < |t|;
    assert t[n] == s[i + n];
  }

  /** A string starting with a non-space has a non-empty first piece. */
  lemma SplitFirstPiece(s: string)
    requires s != [] && !IsSpace(s[0])
    ensures SplitSpace(s)[0] != []
  {
    assert Span(s, IsWordChar) > 0;
  }
}
