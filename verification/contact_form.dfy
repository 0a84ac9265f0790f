/** The contact form: the phone-number formatter, the digit filter applied
    to whatever is typed into the number field, and the decision taken on
    submit. */
module ContactForm {
  import opened Text
  import opened Seqs
  import opened ContactsSlice

  /** The `parts` array `formatPhoneDigits` builds from the (at most eight)
      characters it keeps, before empty parts are dropped. The innermost
      `else if` repeats the guard `|d| > 7` under `|d| < 8` and contributes
      nothing (see `RawPartsAreGroups`). */
  function RawParts(d: string): (parts: seq<string>)
    ensures 1 <= |parts| <= 4
    ensures forall i :: 0 <= i < |parts| ==> |parts[i]| <= 3
  {
    if |d| >= 3 then
      [Slice(d, 0, 3)] +
      (if |d| >= 5 then
         [Slice(d, 3, 5)] +
         (if |d| >= 7 then
            [Slice(d, 5, 7)] +
            (if |d| >= 8 then [Slice(d, 7, 8)]
             else if |d| > 7 then [Slice(d, 7, |d|)]
             else [])
          else [Slice(d, 5, |d|)])
       else [Slice(d, 3, |d|)])
    else [d]
  }

  /** `parts.join(sep)` */
  function Join(parts: seq<string>, sep: char): string
    decreases |parts|
  {
    if |parts| == 0 then []
    else if |parts| == 1 then parts[0]
    else parts[0] + [sep] + Join(parts[1..], sep)
  }

  function Concat(parts: seq<string>): string
    decreases |parts|
  {
    if parts == [] then [] else parts[0] + Concat(parts[1..])
  }

  function Sum(ns: seq<nat>): nat
  {
    if ns == [] then 0 else ns[0] + Sum(ns[1..])
  }

  /** `Boolean` applied to a part: only the empty string is falsy. */
  predicate NonEmpty(part: string)
  {
    part != []
  }

  predicate NotDash(c: char)
  {
    c != '-'
  }

  /** `formatPhoneDigits`: the first eight characters, cut into groups and
      joined with dashes. */
  function FormatPhoneDigits(digits: string): (r: string)
    ensures r == Join(Chunks(Take(digits, 8), GroupSizes), '-')
  {
    var parts := RawParts(Take(digits, 8));
    RawPartsAreGroups(Take(digits, 8));
    Join(Filter(parts, NonEmpty), '-')
  }

  /** The layout the formatter promises, `XXX-XX-XX-X`, as group sizes. */
  const GroupSizes: seq<nat> := [3, 2, 2, 1]

  /** `d` cut into consecutive groups of the given sizes; the last group
      may be short, and characters beyond the sizes' total are dropped. */
  function Chunks(d: string, sizes: seq<nat>): seq<string>
    decreases |sizes|
  {
    if d == [] || sizes == [] then []
    else
      var k := Min(sizes[0], |d|);
      [d[..k]] + Chunks(d[k..], sizes[1..])
  }

  lemma {:induction false} ChunksConcat(d: string, sizes: seq<nat>)
    requires |d| <= Sum(sizes)
    ensures Concat(Chunks(d, sizes)) == d
    decreases |sizes|
  {
    if d != [] && sizes != [] {
      var k := Min(sizes[0], |d|);
      ChunksConcat(d[k..], sizes[1..]);
      assert d == d[..k] + d[k..];
    }
  }

  /** Every group is non-empty and no longer than its size, and every group
      but the last has exactly its size. */
  lemma {:induction false} ChunksShape(d: string, sizes: seq<nat>)
    requires forall i :: 0 <= i < |sizes| ==> sizes[i] > 0
    ensures var g := Chunks(d, sizes);
      && |g| <= |sizes|
      && (forall i :: 0 <= i < |g| ==> 0 < |g[i]| <= sizes[i])
      && (forall i :: 0 <= i < |g| - 1 ==> |g[i]| == sizes[i])
    decreases |sizes|
  {
    if d != [] && sizes != [] {
      var k := Min(sizes[0], |d|);
      ChunksShape(d[k..], sizes[1..]);
      var g := Chunks(d, sizes);
      var rest := Chunks(d[k..], sizes[1..]);
      assert g == [d[..k]] + rest;
      assert forall i :: 1 <= i < |g| ==> g[i] == rest[i - 1] && sizes[i] == sizes[1..][i - 1];
      if |g| > 1 {
        assert d[k..] != [];
        assert k == sizes[0];
      }
    }
  }

  /** The groups of at most eight characters, written out by length. */
  function GroupsBySize(d: string): seq<string>
    requires |d| <= 8
  {
    if d == [] then []
    else if |d| <= 3 then [d]
    else if |d| <= 5 then [d[..3], d[3..]]
    else if |d| <= 7 then [d[..3], d[3..5], d[5..]]
    else [d[..3], d[3..5], d[5..7], d[7..]]
  }

  lemma ChunksLastOne(d: string)
    requires |d| <= 1
    ensures Chunks(d, [1]) == if d == [] then [] else [d]
  {
    if d != [] {
      assert [1][1..] == [];
      assert d[..1] == d;
    }
  }

  lemma ChunksLastTwo(d: string)
    requires |d| <= 3
    ensures Chunks(d, [2, 1]) == if d == [] then [] else if |d| <= 2 then [d] else [d[..2], d[2..]]
  {
    if d != [] {
      var k := Min(2, |d|);
      assert [2, 1][1..] == [1];
      ChunksLastOne(d[k..]);
      assert |d| <= 2 ==> d[..k] == d;
    }
  }

  lemma ChunksLastThree(d: string)
    requires |d| <= 5
    ensures Chunks(d, [2, 2, 1]) == if d == [] then [] else if |d| <= 2 then [d] else [d[..2]] + Chunks(d[2..], [2, 1])
  {
    if d != [] {
      var k := Min(2, |d|);
      assert [2, 2, 1][1..] == [2, 1];
      assert |d| <= 2 ==> d[..k] == d && d[k..] == [];
    }
  }

  lemma ChunksFirst(d: string)
    requires d != []
    ensures Chunks(d, GroupSizes) == [d[..Min(3, |d|)]] + Chunks(d[Min(3, |d|)..], [2, 2, 1])
  {
    assert GroupSizes[1..] == [2, 2, 1];
  }

  lemma ChunksTail(e: string)
    requires 0 < |e| <= 5
    ensures Chunks(e, [2, 2, 1]) == if |e| <= 2 then [e] else if |e| <= 4 then [e[..2], e[2..]] else [e[..2], e[2..4], e[4..]]
  {
    ChunksLastThree(e);
    if |e| > 2 {
      var t := e[2..];
      ChunksLastTwo(t);
      if |e| <= 4 {
        assert Chunks(t, [2, 1]) == [t];
      } else {
        assert t[..2] == e[2..4] && t[2..] == e[4..];
        assert Chunks(t, [2, 1]) == [e[2..4], e[4..]];
      }
    }
  }

  lemma ChunksBySizeLong(d: string)
    requires 3 < |d| <= 8
    ensures Chunks(d, GroupSizes) == [d[..3]] + Chunks(d[3..], [2, 2, 1])
  {
    ChunksFirst(d);
    assert d[..Min(3, |d|)] == d[..3];
  }

  lemma ChunksBySize45(d: string)
    requires 3 < |d| <= 5
    ensures Chunks(d, GroupSizes) == [d[..3], d[3..]]
  {
    ChunksBySizeLong(d);
    ChunksTail(d[3..]);
  }

  lemma ChunksBySize67(d: string)
    requires 5 < |d| <= 7
    ensures Chunks(d, GroupSizes) == [d[..3], d[3..5], d[5..]]
  {
    ChunksBySizeLong(d);
    var e := d[3..];
    ChunksTail(e);
    assert e[..2] == d[3..5];
    assert e[2..] == d[5..];
  }

  lemma ChunksBySize8(d: string)
    requires |d| == 8
    ensures Chunks(d, GroupSizes) == [d[..3], d[3..5], d[5..7], d[7..]]
  {
    ChunksBySizeLong(d);
    var e := d[3..];
    ChunksTail(e);
    assert e[..2] == d[3..5];
    assert e[2..4] == d[5..7];
    assert e[4..] == d[7..];
  }

  /** The reference grouping, written out by length. */
  lemma ChunksBySize(d: string)
    requires |d| <= 8
    ensures Chunks(d, GroupSizes) == GroupsBySize(d)
  {
    if |d| == 8 {
      ChunksBySize8(d);
    } else if |d| > 5 {
      ChunksBySize67(d);
    } else if |d| > 3 {
      ChunksBySize45(d);
    } else if d != [] {
      ChunksFirst(d);
      assert d[..Min(3, |d|)] == d;
      assert d[Min(3, |d|)..] == [];
    }
  }

  lemma GroupsNonEmpty(d: string)
    requires |d| <= 8
    ensures forall i :: 0 <= i < |GroupsBySize(d)| ==> GroupsBySize(d)[i] != []
  {
  }

  /** The empty part `formatPhoneDigits` produces, when it produces one. */
  function EmptyTail(n: nat): seq<string>
  {
    if n == 0 || n == 3 || n == 5 then [[]] else []
  }

  /** The formatter's parts written out by length: the groups, followed by
      one empty part when the length is 0, 3 or 5. */
  lemma RawPartsBySize(d: string)
    requires |d| <= 8
    ensures RawParts(d) == GroupsBySize(d) + EmptyTail(|d|)
  {
    if |d| == 3 {
      assert RawParts(d) == [d, []];
    } else if |d| == 5 {
      assert RawParts(d) == [d[..3], d[3..], []];
    }
  }

  lemma DropEmpty(parts: seq<string>, tail: seq<string>)
    requires forall i :: 0 <= i < |parts| ==> parts[i] != []
    requires tail == [] || tail == [[]]
    ensures Filter(parts + tail, NonEmpty) == parts
  {
    FilterAppend(parts, tail, NonEmpty);
    FilterKeepsAll(parts, NonEmpty);
    if tail != [] {
      assert tail[1..] == [];
    }
  }

  /** The formatter's parts, once empty ones are dropped, are the groups of
      sizes 3, 2, 2 and 1: the branch guarded by `|d| > 7` inside `|d| < 8`
      never contributes. */
  lemma RawPartsAreGroups(d: string)
    requires |d| <= 8
    ensures Filter(RawParts(d), NonEmpty) == Chunks(d, GroupSizes)
  {
    GroupsNonEmpty(d);
    RawPartsBySize(d);
    DropEmpty(GroupsBySize(d), EmptyTail(|d|));
    ChunksBySize(d);
  }

  /** Only the first eight characters matter. */
  lemma FormatIgnoresTail(digits: string)
    ensures FormatPhoneDigits(digits) == FormatPhoneDigits(Take(digits, 8))
  {
    assert Take(Take(digits, 8), 8) == Take(digits, 8);
  }

  /** Every character of `s` passes `p`. */
  predicate AllPass(s: string, p: char -> bool)
  {
    forall c :: c in s ==> p(c)
  }

  predicate NoDash(s: string)
  {
    AllPass(s, NotDash)
  }

  predicate AllDigits(s: string)
  {
    AllPass(s, IsDigit)
  }

  /** A dashed string as the formatter leaves it: no dash at either end and
      no two dashes in a row. */
  predicate WellDashed(r: string)
  {
    r == [] || (r[0] != '-' && r[|r| - 1] != '-' && forall i :: 0 < i < |r| && r[i] == '-' ==> r[i - 1] != '-')
  }

  /** Filtering joined parts by a test the separator fails and every part's
      characters pass gives the parts back, run together. */
  lemma {:induction false} FilterJoin(parts: seq<string>, sep: char, p: char -> bool)
    requires !p(sep)
    requires forall i :: 0 <= i < |parts| ==> AllPass(parts[i], p)
    ensures Filter(Join(parts, sep), p) == Concat(parts)
    decreases |parts|
  {
    if |parts| == 1 {
      FilterKeepsAll(parts[0], p);
      assert Concat(parts) == parts[0] + Concat([]);
    } else if |parts| > 1 {
      var h := parts[0];
      var t := Join(parts[1..], sep);
      assert forall i :: 0 <= i < |parts[1..]| ==> parts[1..][i] == parts[i + 1];
      FilterJoin(parts[1..], sep, p);
      assert Join(parts, sep) == (h + [sep]) + t;
      FilterAppend(h + [sep], t, p);
      FilterAppend(h, [sep], p);
      FilterKeepsAll(h, p);
      assert [sep][1..] == [];
      assert Filter([sep], p) == [];
      assert Concat(parts) == h + Concat(parts[1..]);
    }
  }

  /** Joining non-empty dash-free parts with `-` yields one dash per gap. */
  lemma {:induction false} JoinDashes(parts: seq<string>)
    requires forall i :: 0 <= i < |parts| ==> parts[i] != [] && NoDash(parts[i])
    ensures WellDashed(Join(parts, '-'))
    ensures |parts| > 0 ==> multiset(Join(parts, '-'))['-'] == |parts| - 1
    ensures |parts| == 0 ==> Join(parts, '-') == []
    decreases |parts|
  {
    if |parts| == 1 {
      assert '-' !in parts[0];
      assert multiset(parts[0])['-'] == 0;
    } else if |parts| > 1 {
      JoinDashes(parts[1..]);
      var h := parts[0];
      var t := Join(parts[1..], '-');
      var r := h + ['-'] + t;
      assert Join(parts, '-') == r;
      assert '-' !in h;
      assert multiset(h)['-'] == 0;
      assert multiset(r) == multiset(h) + multiset(['-']) + multiset(t);
      assert t != [] by {
        assert |parts[1..]| > 0;
        if |parts[1..]| == 1 {
          assert t == parts[1];
        }
      }
      forall i | 0 < i < |r| && r[i] == '-'
        ensures r[i - 1] != '-'
      {
        if i > |h| {
          assert r[i] == t[i - |h| - 1];
          assert r[i - 1] == if i - 1 == |h| then '-' else t[i - |h| - 2];
        } else {
          assert r[i - 1] == h[i - 1];
        }
      }
      assert r[0] == h[0];
      assert r[|r| - 1] == t[|t| - 1];
    }
  }

  /** How many dashes the formatter puts between `n` kept characters. */
  function DashesFor(n: nat): nat
  {
    if n <= 3 then 0 else if n <= 5 then 1 else if n <= 7 then 2 else 3
  }

  lemma GroupCount(d: string)
    requires |d| <= 8
    ensures |Chunks(d, GroupSizes)| == if d == [] then 0 else DashesFor(|d|) + 1
  {
    ChunksBySize(d);
  }

  /** For dash-free input, what the formatter emits: the kept characters
      in order once the dashes are taken out, never a dash at either end or
      two in a row, one dash per group boundary (none up to 3 characters,
      one for 4-5, two for 6-7, three for 8), and groups of 3, 2, 2 and 1
      characters of which only the last may be short. */
  lemma FormatShape(digits: string)
    requires NoDash(digits)
    ensures var r := FormatPhoneDigits(digits);
      && Filter(r, NotDash) == Take(digits, 8)
      && WellDashed(r)
      && multiset(r)['-'] == DashesFor(|Take(digits, 8)|)
      && (digits == [] <==> r == [])
  {
    var d := Take(digits, 8);
    var g := Chunks(d, GroupSizes);
    ChunksShape(d, GroupSizes);
    ChunksConcat(d, GroupSizes);
    ChunksInside(d, GroupSizes);
    forall i | 0 <= i < |g|
      ensures NoDash(g[i])
    {
      forall c | c in g[i]
        ensures c != '-'
      {
        assert c in d;
      }
    }
    JoinDashes(g);
    FilterJoin(g, '-', NotDash);
    GroupCount(d);
  }

  /** Every character of a group is a character of the grouped string. */
  lemma {:induction false} ChunksInside(d: string, sizes: seq<nat>)
    ensures forall i, c :: 0 <= i < |Chunks(d, sizes)| && c in Chunks(d, sizes)[i] ==> c in d
    decreases |sizes|
  {
    if d != [] && sizes != [] {
      var k := Min(sizes[0], |d|);
      ChunksInside(d[k..], sizes[1..]);
      var g := Chunks(d, sizes);
      assert forall i :: 1 <= i < |g| ==> g[i] == Chunks(d[k..], sizes[1..])[i - 1];
      assert forall c :: c in d[k..] ==> c in d;
    }
  }

  /** `handleNumberChange`: keep the digits of what was typed, at most eight. */
  function Sanitize(typed: string): (raw: string)
    ensures AllDigits(raw) && |raw| <= 8
    ensures raw <= Filter(typed, IsDigit)
    ensures |raw| == Min(8, |Filter(typed, IsDigit)|)
    ensures IsSubseq(raw, typed)
  {
    var digits := Filter(typed, IsDigit);
    assert forall i :: 0 <= i < |digits| ==> digits[i] in digits;
    PrefixOfSubseq(Take(digits, 8), digits, typed);
    Take(digits, 8)
  }

  lemma {:induction false} PrefixOfSubseq<T>(a: seq<T>, b: seq<T>, c: seq<T>)
    requires a <= b && IsSubseq(b, c)
    ensures IsSubseq(a, c)
    decreases |c|
  {
    if a != [] && c != [] {
      if b[0] == c[0] {
        PrefixOfSubseq(a[1..], b[1..], c[1..]);
      } else {
        PrefixOfSubseq(a, b, c[1..]);
      }
    }
  }

  /** Digits-only input survives formatting and re-sanitising: the digits
      of the formatted number are the first eight digits put in. */
  lemma SanitizeUndoesFormat(digits: string)
    requires AllDigits(digits)
    ensures Sanitize(FormatPhoneDigits(digits)) == Take(digits, 8)
  {
    DigitsOfFormat(digits);
  }

  /** The digits of the formatted number are exactly the kept characters. */
  lemma DigitsOfFormat(digits: string)
    requires AllDigits(digits)
    ensures Filter(FormatPhoneDigits(digits), IsDigit) == Take(digits, 8)
  {
    var d := Take(digits, 8);
    var g := Chunks(d, GroupSizes);
    ChunksConcat(d, GroupSizes);
    ChunksInside(d, GroupSizes);
    assert forall i :: 0 <= i < |g| ==> AllPass(g[i], IsDigit);
    FilterJoin(g, '-', IsDigit);
  }

  /** Formatting is stable under the field's own round trip: sanitising the
      displayed number and formatting it again shows the same text. */
  lemma FormatIdempotent(digits: string)
    requires AllDigits(digits)
    ensures FormatPhoneDigits(Sanitize(FormatPhoneDigits(digits))) == FormatPhoneDigits(digits)
  {
    SanitizeUndoesFormat(digits);
    FormatIgnoresTail(digits);
  }

  /** The form's state: the name field and the raw digits behind the
      number field. */
  datatype Form = Form(name: string, rawNumber: string)

  const EmptyForm := Form("", "")

  /** What the number field holds: at most eight digits. */
  predicate ValidForm(f: Form)
  {
    AllDigits(f.rawNumber) && |f.rawNumber| <= 8
  }

  /** The text the number field shows (the `useEffect` on `rawNumber`). */
  function Display(f: Form): (r: string)
    ensures r == Join(Chunks(Take(f.rawNumber, 8), GroupSizes), '-')
    ensures ValidForm(f) ==> WellDashed(r) && Sanitize(r) == f.rawNumber
  {
    if ValidForm(f) then
      NoDashWhenDigits(f.rawNumber);
      FormatShape(f.rawNumber);
      SanitizeUndoesFormat(f.rawNumber);
      assert Take(f.rawNumber, 8) == f.rawNumber;
      FormatPhoneDigits(f.rawNumber)
    else
      FormatPhoneDigits(f.rawNumber)
  }

  /** The number field's change handler. */
  function NumberChanged(f: Form, typed: string): (g: Form)
    ensures g == f.(rawNumber := Take(Filter(typed, IsDigit), 8))
    ensures ValidForm(g) && g.name == f.name
  {
    f.(rawNumber := Sanitize(typed))
  }

  /** The field's text handed back unchanged, as on a re-render, leaves the
      raw number as it was. */
  lemma RetypingDisplayKeepsNumber(f: Form)
    requires ValidForm(f)
    ensures NumberChanged(f, Display(f)) == f
  {
    SanitizeUndoesFormat(f.rawNumber);
  }

  /** Typing a digit after the displayed text appends it to the raw number,
      unless eight digits are already there. */
  lemma TypingDigitAppends(f: Form, c: char)
    requires ValidForm(f) && IsDigit(c)
    ensures NumberChanged(f, Display(f) + [c]).rawNumber
      == if |f.rawNumber| < 8 then f.rawNumber + [c] else f.rawNumber
  {
    SanitizeUndoesFormat(f.rawNumber);
    FilterAppend(Display(f), [c], IsDigit);
  }

  /** Deleting the last character of the displayed text deletes the last
      digit: the text never ends in a dash to get stuck on. */
  lemma BackspaceDropsLastDigit(f: Form)
    requires ValidForm(f) && f.rawNumber != []
    ensures NumberChanged(f, Display(f)[..|Display(f)| - 1]).rawNumber == f.rawNumber[..|f.rawNumber| - 1]
  {
    BackspaceOnFormat(f.rawNumber);
  }

  lemma BackspaceOnFormat(d: string)
    requires AllDigits(d) && 0 < |d| <= 8
    ensures var r := FormatPhoneDigits(d); r != [] && Sanitize(r[..|r| - 1]) == d[..|d| - 1]
  {
    var r := FormatPhoneDigits(d);
    FormatEndsInDigit(d);
    DigitsOfFormat(d);
    DropLastDigit(r, d);
    SanitizeFew(r[..|r| - 1]);
  }

  /** Text with at most eight digits sanitises to all of its digits. */
  lemma SanitizeFew(t: string)
    requires |Filter(t, IsDigit)| <= 8
    ensures Sanitize(t) == Filter(t, IsDigit)
  {
  }

  /** Removing a final digit from text removes the last of its digits. */
  lemma DropLastDigit(r: string, d: string)
    requires r != [] && IsDigit(r[|r| - 1])
    requires Filter(r, IsDigit) == Take(d, 8) && |d| <= 8
    ensures d != [] && Filter(r[..|r| - 1], IsDigit) == d[..|d| - 1]
  {
    FilterDropLast(r, IsDigit);
    assert Take(d, 8) == d;
  }

  /** Formatting a non-empty number ends in a digit. */
  lemma FormatEndsInDigit(d: string)
    requires AllDigits(d) && d != []
    ensures var r := FormatPhoneDigits(d); r != [] && IsDigit(r[|r| - 1])
  {
    var r := FormatPhoneDigits(d);
    NoDashWhenDigits(d);
    FormatShape(d);
    DigitsOrDashes(d);
    assert r[|r| - 1] in r;
  }

  lemma NoDashWhenDigits(d: string)
    requires AllDigits(d)
    ensures NoDash(d)
  {
  }

  /** The formatter adds nothing but dashes to digits-only input. */
  lemma DigitsOrDashes(digits: string)
    requires AllDigits(digits)
    ensures forall c :: c in FormatPhoneDigits(digits) ==> IsDigit(c) || c == '-'
  {
    var d := Take(digits, 8);
    var g := Chunks(d, GroupSizes);
    ChunksInside(d, GroupSizes);
    JoinMembers(g, '-');
  }

  lemma {:induction false} JoinMembers(parts: seq<string>, sep: char)
    ensures forall c :: c in Join(parts, sep) ==> c == sep || exists i, j :: 0 <= i < |parts| && 0 <= j < |parts[i]| && parts[i][j] == c
    decreases |parts|
  {
    if |parts| > 1 {
      JoinMembers(parts[1..], sep);
      forall c | c in Join(parts, sep) && c != sep
        ensures exists i, j :: 0 <= i < |parts| && 0 <= j < |parts[i]| && parts[i][j] == c
      {
        if c in parts[0] {
          var j :| 0 <= j < |parts[0]| && parts[0][j] == c;
        } else {
          var i, j :| 0 <= i < |parts[1..]| && 0 <= j < |parts[1..][i]| && parts[1..][i][j] == c;
          assert parts[i + 1][j] == c;
        }
      }
    } else if |parts| == 1 {
      forall c | c in Join(parts, sep)
        ensures exists i, j :: 0 <= i < |parts| && 0 <= j < |parts[i]| && parts[i][j] == c
      {
        var j :| 0 <= j < |parts[0]| && parts[0][j] == c;
      }
    }
  }

  /** The result of a submit: the form afterwards and the contact handed
      to `onAdd`, if any. */
  datatype Submission = Submission(form: Form, added: Option<Draft>)

  /** `handleSubmit`. The answer to the "number seems short" confirmation
      is an input; it is only consulted for numbers under eight digits. */
  function Submit(f: Form, confirmShort: bool): (r: Submission)
    ensures r.added.Some? <==> !AllSpace(f.name) && (|f.rawNumber| >= 8 || confirmShort)
    ensures r.added.Some? ==> r.added.value == Draft(Trim(f.name), Display(f)) && r.form == EmptyForm
    ensures r.added.None? ==> r.form == f
  {
    TrimBlank(f.name);
    var trimmedName := Trim(f.name);
    if trimmedName == [] then Submission(f, None)
    else if |f.rawNumber| < 8 && !confirmShort then Submission(f, None)
    else Submission(EmptyForm, Some(Draft(trimmedName, FormatPhoneDigits(f.rawNumber))))
  }

  /** What a submit hands on is clean: a non-blank trimmed name and a
      well-dashed number whose digits are the raw number. */
  lemma SubmittedDraftIsClean(f: Form, confirmShort: bool)
    requires ValidForm(f)
    requires Submit(f, confirmShort).added.Some?
    ensures var d := Submit(f, confirmShort).added.value;
      && d.name != [] && Trimmed(d.name)
      && WellDashed(d.number)
      && Sanitize(d.number) == f.rawNumber
  {
    TrimBlank(f.name);
    FormatShape(f.rawNumber);
    SanitizeUndoesFormat(f.rawNumber);
  }
}
