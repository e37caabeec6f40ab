/** The pieces of Python's `str` that the document builder relies on:
    `str.isspace` on one character, `str.strip()` called with no argument,
    and `'\n'.join` / `str.split('\n')`, which are used to talk about the
    lines of a rendered text. Strings are sequences of Dafny `char`, which are
    Unicode scalar values; a Python `str` can also hold lone surrogates,
    which this model cannot represent. */
module PyStr {

  /** True iff Python's `str.isspace` holds of the one-character string `c`:
      the characters of bidirectional class WS, B or S or of general
      category Zs. These are exactly the characters `str.strip()` removes
      when it is called without an argument. */
  predicate IsSpace(c: char) {
    || ('\t' <= c <= '\r')                // tab, line feed, vertical tab, form feed, carriage return
    || ('\U{1C}' <= c <= '\U{1F}')        // file, group, record and unit separators
    || c == ' '
    || c == '\U{85}'                      // next line
    || c == '\U{A0}'                      // no-break space
    || c == '\U{1680}'                    // ogham space mark
    || ('\U{2000}' <= c <= '\U{200A}')    // en quad .. hair space
    || c == '\U{2028}' || c == '\U{2029}' // line and paragraph separators
    || c == '\U{202F}' || c == '\U{205F}' || c == '\U{3000}'
  }

  /** Every character of `s` is whitespace (vacuously true of ""). */
  predicate AllSpace(s: string) {
    forall i :: 0 <= i < |s| ==> IsSpace(s[i])
  }

  /** The right half of `str.strip()`: drops every trailing whitespace
      character. The result is the longest prefix of `s` that does not end
      in whitespace, and what is dropped is all whitespace. */
  function RStrip(s: string): (r: string)
    ensures r <= s
    ensures AllSpace(s[|r|..])
    ensures r == [] || !IsSpace(r[|r| - 1])
  {
    if |s| > 0 && IsSpace(s[|s| - 1]) then
      var r := RStrip(s[..|s| - 1]);
      assert s[|r|..] == s[..|s| - 1][|r|..] + [s[|s| - 1]];
      r
    else
      s
  }

  /** The left half of `str.strip()`: drops every leading whitespace
      character. The result is a suffix of `s`, what is dropped is all
      whitespace, and the result does not start with whitespace. */
  function LStrip(s: string): (r: string)
    ensures |r| <= |s| && r == s[|s| - |r|..]
    ensures AllSpace(s[..|s| - |r|])
    ensures r == [] || !IsSpace(r[0])
  {
    if |s| > 0 && IsSpace(s[0]) then
      var r := LStrip(s[1..]);
      DropLeadingSpace(s, r);
      r
    else
      s
  }

  /** One step of `LStrip`: a suffix of `s[1..]` behind only whitespace
      is a suffix of `s` behind only whitespace, when `s[0]` is whitespace. */
  lemma DropLeadingSpace(s: string, r: string)
    requires |s| > 0 && IsSpace(s[0])
    requires |r| <= |s| - 1 && r == s[1..][|s| - 1 - |r|..]
    requires AllSpace(s[1..][..|s| - 1 - |r|])
    ensures r == s[|s| - |r|..]
    ensures AllSpace(s[..|s| - |r|])
  {
    assert s[..|s| - |r|] == [s[0]] + s[1..][..|s| - 1 - |r|];
  }

  /** Python's `str.strip()` with no argument: both halves, the leading
      one first. Nothing of `s` but whitespace is dropped, and the result
      neither starts nor ends in whitespace. */
  function Strip(s: string): (r: string)
    ensures |r| <= |s|
    ensures r == [] || (!IsSpace(r[0]) && !IsSpace(r[|r| - 1]))
    ensures AllSpace(s) <==> r == []
    ensures |s| > 0 && !IsSpace(s[0]) ==> r == RStrip(s)
    ensures exists i :: KeptSlice(s, r, i)
  {
    var l := LStrip(s);
    StripBorders(s, l, RStrip(l));
    PrefixOfSuffix(s, l, RStrip(l));
    RStrip(l)
  }

  /** `r` is the piece of `s` that starts at index `i`, and everything of
      `s` before and after that piece is whitespace. */
  predicate KeptSlice(s: string, r: string, i: int) {
    0 <= i <= |s| - |r| && r == s[i..i + |r|] && AllSpace(s[..i]) && AllSpace(s[i + |r|..])
  }

  /** A prefix `r` of a suffix `l` of `s` is a piece of `s`; whitespace
      around each step is whitespace around the piece. */
  lemma PrefixOfSuffix(s: string, l: string, r: string)
    requires |l| <= |s| && l == s[|s| - |l|..] && AllSpace(s[..|s| - |l|])
    requires r <= l && AllSpace(l[|r|..])
    ensures KeptSlice(s, r, |s| - |l|)
  {
    var i := |s| - |l|;
    assert r == l[..|r|];
    assert s[i..][..|r|] == s[i..i + |r|];
    assert s[i..][|r|..] == s[i + |r|..];
  }

  /** The facts behind `Strip`'s contract, for `l == LStrip(s)` and
      `r == RStrip(l)`. */
  lemma StripBorders(s: string, l: string, r: string)
    requires l == LStrip(s) && r == RStrip(l)
    ensures r == [] || !IsSpace(r[0])
    ensures AllSpace(s) <==> r == []
  {
    if r != [] {
      assert r[0] == l[0];
    }
    if l != [] {
      assert s[|s| - |l|] == l[0];
    }
    if r == [] {
      assert l[0..] == l;
    }
    assert s[..|s|] == s;
  }

  /** Appending only whitespace to a string does not change what `RStrip`
      makes of it. */
  lemma {:induction false} RStripAppendSpace(s: string, w: string)
    requires AllSpace(w)
    ensures RStrip(s + w) == RStrip(s)
    decreases |w|
  {
    if |w| > 0 {
      var w' := w[..|w| - 1];
      assert (s + w)[..|s + w| - 1] == s + w';
      assert (s + w)[|s + w| - 1] == w[|w| - 1];
      RStripAppendSpace(s, w');
    } else {
      assert s + w == s;
    }
  }

  /** A string that ends in a non-whitespace character shields everything
      before it: `RStrip` only ever looks at what follows it. */
  lemma {:induction false} RStripAfterSolid(a: string, w: string)
    requires |a| > 0 && !IsSpace(a[|a| - 1])
    ensures RStrip(a + w) == a + RStrip(w)
    decreases |w|
  {
    if |w| == 0 {
      assert a + w == a;
      assert a + RStrip(w) == a;
    } else {
      var w' := w[..|w| - 1];
      assert (a + w)[..|a + w| - 1] == a + w';
      assert (a + w)[|a + w| - 1] == w[|w| - 1];
      RStripAfterSolid(a, w');
    }
  }

  /** A string that starts and ends with non-whitespace is left whole by
      `Strip`; only what follows it can be cut. */
  lemma StripAfterSolid(h: string, w: string)
    requires |h| > 0 && !IsSpace(h[0]) && !IsSpace(h[|h| - 1])
    ensures Strip(h + w) == h + RStrip(w)
  {
    assert (h + w)[0] == h[0];
    RStripAfterSolid(h, w);
  }

  /** A string that starts with non-whitespace loses only trailing
      whitespace to `Strip`, and what remains is non-empty and does not end
      in whitespace. */
  lemma StripSolidStart(s: string)
    requires |s| > 0 && !IsSpace(s[0])
    ensures Strip(s) <= s
    ensures AllSpace(s[|Strip(s)|..])
    ensures |Strip(s)| > 0 && !IsSpace(Strip(s)[|Strip(s)| - 1])
  {
    assert !AllSpace(s);
  }

  /** After a solid head, stripping removes exactly one final newline
      and nothing more if and only if what precedes that newline does not
      end in whitespace. */
  lemma StripDropsOnlyLast(h: string, w: string)
    requires |h| > 0 && !IsSpace(h[0]) && !IsSpace(h[|h| - 1])
    ensures Strip(h + (w + "\n")) == h + w <==> (w == [] || !IsSpace(w[|w| - 1]))
  {
    StripNewlineAfterSolid(h, w);
    RStripFixedIff(w);
    var rw := RStrip(w);
    if h + rw == h + w {
      assert rw == (h + rw)[|h|..];
      assert w == (h + w)[|h|..];
    }
  }

  /** After a solid head, stripping `w` plus a newline keeps the head and
      right-strips `w`. */
  lemma StripNewlineAfterSolid(h: string, w: string)
    requires |h| > 0 && !IsSpace(h[0]) && !IsSpace(h[|h| - 1])
    ensures Strip(h + (w + "\n")) == h + RStrip(w)
  {
    StripAfterSolid(h, w + "\n");
    RStripDropsNewline(w);
  }

  /** A final newline makes no difference to `RStrip`. */
  lemma RStripDropsNewline(w: string)
    ensures RStrip(w + "\n") == RStrip(w)
  {
    assert AllSpace("\n");
    RStripAppendSpace(w, "\n");
  }

  /** `RStrip` leaves a string unchanged exactly when it is empty or does
      not end in whitespace. */
  lemma RStripFixedIff(w: string)
    ensures RStrip(w) == w <==> (w == [] || !IsSpace(w[|w| - 1]))
  {
  }

  /** The shape `Strip` leaves behind a solid head: the head survives,
      the result is a prefix of the input that does not end in whitespace,
      and only whitespace was cut from the end. */
  lemma StripShapeAfterSolid(h: string, w: string)
    requires |h| > 0 && !IsSpace(h[0]) && !IsSpace(h[|h| - 1])
    ensures var c := Strip(h + w);
      && h <= c && c <= h + w
      && AllSpace((h + w)[|c|..])
      && |c| > 0 && !IsSpace(c[|c| - 1])
  {
    StripAfterSolid(h, w);
    SolidHeadShape(h, w, RStrip(w));
  }

  /** A solid head followed by a right-stripped tail `rw` of `w`. */
  lemma SolidHeadShape(h: string, w: string, rw: string)
    requires |h| > 0 && !IsSpace(h[|h| - 1])
    requires rw <= w && AllSpace(w[|rw|..]) && (rw == [] || !IsSpace(rw[|rw| - 1]))
    ensures var c := h + rw;
      && h <= c && c <= h + w
      && AllSpace((h + w)[|c|..])
      && |c| > 0 && !IsSpace(c[|c| - 1])
  {
    var c := h + rw;
    assert c[..|h|] == h;
    assert (h + w)[..|c|] == h + w[..|rw|];
    assert (h + w)[|c|..] == w[|rw|..];
    if rw == [] {
      assert c[|c| - 1] == h[|h| - 1];
    } else {
      assert c[|c| - 1] == rw[|rw| - 1];
    }
  }

  /** `RStrip` is pinned down by its contract: the only prefix of `s` that
      does not end in whitespace and leaves only whitespace behind is
      `RStrip(s)`. */
  lemma {:induction false} RStripUnique(s: string, t: string)
    requires t <= s
    requires AllSpace(s[|t|..])
    requires t == [] || !IsSpace(t[|t| - 1])
    ensures t == RStrip(s)
  {
    var w := s[|t|..];
    assert s == t + w;
    RStripAppendSpace(t, w);
    assert RStrip(t) == t;
  }

  /** Python's `sep.join(lines)` for a one-character separator. */
  function Join(lines: seq<string>, sep: char): string
  {
    if |lines| == 0 then ""
    else if |lines| == 1 then lines[0]
    else lines[0] + [sep] + Join(lines[1..], sep)
  }

  /** Joining five lines: each is followed by the separator except the last. */
  lemma JoinFive(a: string, b: string, c: string, d: string, e: string, sep: char)
    ensures Join([a, b, c, d, e], sep) == a + [sep] + b + [sep] + c + [sep] + d + [sep] + e
  {
    var ls := [a, b, c, d, e];
    assert ls[1..] == [b, c, d, e];
    assert ls[1..][1..] == [c, d, e];
    assert ls[1..][1..][1..] == [d, e];
    assert ls[1..][1..][1..][1..] == [e];
    assert Join([d, e], sep) == d + [sep] + e;
    assert Join([c, d, e], sep) == c + [sep] + (d + [sep] + e);
    assert Join([b, c, d, e], sep) == b + [sep] + (c + [sep] + (d + [sep] + e));
  }

  /** Joining four lines. */
  lemma JoinFour(a: string, b: string, c: string, d: string, sep: char)
    ensures Join([a, b, c, d], sep) == a + [sep] + b + [sep] + c + [sep] + d
  {
    var ls := [a, b, c, d];
    assert ls[1..] == [b, c, d];
    assert ls[1..][1..] == [c, d];
    assert ls[1..][1..][1..] == [d];
    assert Join([c, d], sep) == c + [sep] + d;
    assert Join([b, c, d], sep) == b + [sep] + (c + [sep] + d);
  }

  /** Joining with one more, empty, line adds exactly a trailing separator. */
  lemma {:induction false} JoinAppendEmpty(lines: seq<string>, sep: char)
    requires |lines| >= 1
    ensures Join(lines + [""], sep) == Join(lines, sep) + [sep]
    decreases |lines|
  {
    var all := lines + [""];
    assert all[1..] == lines[1..] + [""];
    if |lines| > 1 {
      JoinAppendEmpty(lines[1..], sep);
    } else {
      assert all[1..] == [""];
    }
  }

  /** Python's `s.split(sep)` for a one-character separator: the maximal
      runs between separators, always at least one. Joining the parts again
      gives back `s`, and no part contains the separator. */
  function Split(s: string, sep: char): (parts: seq<string>)
    ensures |parts| >= 1
    ensures forall i :: 0 <= i < |parts| ==> sep !in parts[i]
    ensures Join(parts, sep) == s
  {
    if |s| == 0 then [""]
    else
      var rest := Split(s[1..], sep);
      if s[0] == sep then
        var parts := [""] + rest;
        assert parts[1..] == rest;
        assert Join(parts, sep) == [sep] + s[1..];
        assert [sep] + s[1..] == s;
        parts
      else
        JoinExtendHead(s[0], rest, sep);
        assert [s[0]] + s[1..] == s;
        [[s[0]] + rest[0]] + rest[1..]
  }

  /** Prepending a character to the first of several lines prepends it to
      their join. */
  lemma JoinExtendHead(c: char, lines: seq<string>, sep: char)
    requires |lines| >= 1
    ensures Join([[c] + lines[0]] + lines[1..], sep) == [c] + Join(lines, sep)
  {
    var parts := [[c] + lines[0]] + lines[1..];
    assert parts[1..] == lines[1..];
  }

  /** Splitting at a separator that the first part does not contain peels
      off exactly that part. */
  lemma {:induction false} SplitPeel(a: string, sep: char, b: string)
    requires sep !in a
    ensures Split(a + [sep] + b, sep) == [a] + Split(b, sep)
    decreases |a|
  {
    var s := a + [sep] + b;
    if |a| == 0 {
      assert s == [sep] + b;
      assert s[1..] == b;
    } else {
      assert s[1..] == a[1..] + [sep] + b;
      SplitPeel(a[1..], sep, b);
      assert [a[0]] + a[1..] == a;
    }
  }

  /** The round trip in the other direction: splitting a join gives the
      lines back, as long as there is at least one line and none of them
      contains the separator. */
  lemma {:induction false} SplitJoin(lines: seq<string>, sep: char)
    requires |lines| >= 1
    requires forall i :: 0 <= i < |lines| ==> sep !in lines[i]
    ensures Split(Join(lines, sep), sep) == lines
    decreases |lines|
  {
    if |lines| == 1 {
      SplitNoSep(lines[0], sep);
    } else {
      SplitJoin(lines[1..], sep);
      SplitPeel(lines[0], sep, Join(lines[1..], sep));
      assert [lines[0]] + lines[1..] == lines;
    }
  }

  /** A string without the separator splits into itself alone. */
  lemma {:induction false} SplitNoSep(s: string, sep: char)
    requires sep !in s
    ensures Split(s, sep) == [s]
    decreases |s|
  {
    if |s| > 0 {
      SplitNoSep(s[1..], sep);
      assert [s[0]] + s[1..] == s;
    }
  }
}
