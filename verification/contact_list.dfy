/** The contact list's avatar initials. */
module ContactList {
  import opened Text

  /** `getInitials`: two letters of a one-word name, or the first letters
      of its first two words, upper-cased. */
  function GetInitials(name: string): (r: string)
    ensures |r| <= 2
  {
    if name == [] then []
    else
      var parts := SplitSpace(Trim(name));
      if |parts| == 1 then Upper(Slice(parts[0], 0, 2))
      else
        SplitTrimmedWords(Trim(name));
        Upper([parts[0][0], parts[1][0]])
  }

  /** An empty or all-white-space name has no initials. */
  lemma InitialsOfBlank(name: string)
    requires AllSpace(name)
    ensures GetInitials(name) == []
  {
    if name != [] {
      TrimBlank(name);
      assert SplitSpace([]) == [[]];
    }
  }

  /** A single word, whatever white space surrounds it, gives its first two
      characters (or its only one), upper-cased. */
  lemma InitialsOfOneWord(l: string, w: string, t: string)
    requires AllSpace(l) && AllSpace(t)
    requires w != [] && NoSpace(w)
    ensures GetInitials(l + w + t) == Upper(Take(w, 2))
  {
    TrimFrame(l, w, t);
    SplitWord(w);
  }

  /** A tail that is empty or starts with white space is a part that is
      empty or runs from white space to a non-space character, followed by
      trailing white space. */
  lemma TailParts(tail: string) returns (u: string, t: string)
    requires tail == [] || IsSpace(tail[0])
    ensures tail == u + t && AllSpace(t)
    ensures u == [] || (IsSpace(u[0]) && !IsSpace(u[|u| - 1]))
  {
    var n := SpanBack(tail, IsSpace);
    u := tail[..|tail| - n];
    t := tail[|tail| - n..];
    assert u != [] ==> u[0] == tail[0];
  }

  lemma TrimTwoWords(l: string, w1: string, sep: string, w2: string, u: string, t: string)
    requires AllSpace(l) && AllSpace(t) && w1 != [] && NoSpace(w1) && w2 != [] && NoSpace(w2)
    requires u == [] || !IsSpace(u[|u| - 1])
    ensures Trim(l + w1 + sep + w2 + (u + t)) == w1 + sep + (w2 + u)
  {
    var w := w1 + sep + (w2 + u);
    assert w[0] == w1[0];
    assert w[|w| - 1] == if u == [] then w2[|w2| - 1] else u[|u| - 1];
    assert l + w1 + sep + w2 + (u + t) == l + w + t;
    TrimFrame(l, w, t);
  }

  lemma SplitTwoWords(w1: string, sep: string, w2: string, u: string)
    requires w1 != [] && NoSpace(w1) && sep != [] && AllSpace(sep) && w2 != [] && NoSpace(w2)
    requires u == [] || IsSpace(u[0])
    ensures var parts := SplitSpace(w1 + sep + (w2 + u));
      |parts| >= 2 && parts[0] == w1 && parts[1] == w2
  {
    SplitCons(w1, sep, w2 + u);
    SplitFirst(w2, u);
  }

  /** Two or more words give the first characters of the first two words,
      upper-cased; surrounding white space and further words are ignored. */
  lemma InitialsOfTwoWords(l: string, w1: string, sep: string, w2: string, tail: string)
    requires AllSpace(l) && w1 != [] && NoSpace(w1)
    requires sep != [] && AllSpace(sep)
    requires w2 != [] && NoSpace(w2)
    requires tail == [] || IsSpace(tail[0])
    ensures GetInitials(l + w1 + sep + w2 + tail) == Upper([w1[0], w2[0]])
  {
    var u, t := TailParts(tail);
    TrimTwoWords(l, w1, sep, w2, u, t);
    SplitTwoWords(w1, sep, w2, u);
  }
}
