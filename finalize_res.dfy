/** Finalisation of staging resource groups: entries of each
    <staging-public-group> receive public IDs numbered on from the highest
    ID already finalised for their type, each non-empty group is renamed to
    <staging-public-group-final>, and the next release's empty groups are
    seeded below the lowest first-id seen. Groups arrive already parsed. */
module FinalizeRes {

  /** The resource types that get a seeded group for the next release, in order. */
  const ResTypes: seq<string> :=
    ["attr", "id", "style", "string", "dimen", "color", "array", "drawable", "layout",
     "anim", "animator", "interpolator", "mipmap", "integer", "transition", "raw", "bool",
     "fraction"]

  /** Starting value of the lowest staging first-id. */
  const INITIAL_LOWEST_STAGING_FIRST_ID: int := 0x01FFFFFF

  /** Distance between the first-ids of consecutive seeded groups. */
  const FIRST_ID_STEP: int := 0x00010000

  /** A finalised public declaration: <public type=.. name=.. id=.. />. */
  datatype PublicEntry = PublicEntry(resType: string, name: string, id: int)

  /** A parsed <staging-public-group>: its type, its first-id value and the
      names of its <public name=.. /> entries in source order. */
  datatype StagingGroup = StagingGroup(resType: string, firstId: int, names: seq<string>)

  /** What a group becomes. A group with entries is emitted again with its
      tags renamed to staging-public-group-final, followed by the lines of
      its new declarations (one PublicLine each); a group without entries leaves
      only its inner text. */
  datatype GroupOutput =
    | FinalGroup(resType: string, firstId: int, stagedNames: seq<string>,
                 declarations: seq<PublicEntry>)
    | InnerTextOnly

  datatype Option<T> = None | Some(value: T)

  function Min(a: int, b: int): int { if a <= b then a else b }
  function Max(a: int, b: int): int { if a >= b then a else b }

  /** k copies of one character. */
  function Repeat(c: char, k: nat): (s: string)
    ensures |s| == k && forall i :: 0 <= i < k ==> s[i] == c
  {
    if k == 0 then [] else Repeat(c, k - 1) + [c]
  }

  // ---------------------------------------------------------------------
  // Hex formatting: '0x' + '{0:08x}'.format(v)
  // ---------------------------------------------------------------------

  predicate IsLowerHexDigit(c: char)
  {
    '0' <= c <= '9' || 'a' <= c <= 'f'
  }

  predicate IsLowerHex(s: string)
  {
    forall i :: 0 <= i < |s| ==> IsLowerHexDigit(s[i])
  }

  function HexDigit(d: nat): (c: char)
    requires d < 16
    ensures IsLowerHexDigit(c)
  {
    "0123456789abcdef"[d]
  }

  function DigitValue(c: char): (d: nat)
    requires IsLowerHexDigit(c)
    ensures d < 16
  {
    if c <= '9' then c as int - '0' as int else c as int - 'a' as int + 10
  }

  /** The value of a string of lowercase hex digits, most significant first. */
  function HexValue(s: string): nat
    requires IsLowerHex(s)
  {
    if s == [] then 0 else HexValue(s[..|s| - 1]) * 16 + DigitValue(s[|s| - 1])
  }

  function Pow16(k: nat): (p: nat)
    ensures p >= 1
  {
    if k == 0 then 1 else 16 * Pow16(k - 1)
  }

  /** The shortest lowercase hex rendering of n, as Python's 'x' format gives it. */
  function HexDigits(n: nat): (s: string)
    ensures |s| >= 1 && IsLowerHex(s)
    decreases n
  {
    if n < 16 then [HexDigit(n)] else HexDigits(n / 16) + [HexDigit(n % 16)]
  }

  /** Reading back the digits gives the number. */
  lemma {:induction false} HexDigitsRoundTrip(n: nat)
    ensures HexValue(HexDigits(n)) == n
    decreases n
  {
    var s := HexDigits(n);
    if n < 16 {
      assert s[..0] == [];
    } else {
      HexDigitsRoundTrip(n / 16);
      assert s[..|s| - 1] == HexDigits(n / 16);
      assert DigitValue(s[|s| - 1]) == n % 16;
    }
  }

  /** A number below 16^k needs at most k digits. */
  lemma {:induction false} HexDigitsLength(n: nat, k: nat)
    requires k >= 1 && n < Pow16(k)
    ensures |HexDigits(n)| <= k
    decreases n
  {
    if n >= 16 {
      HexDigitsLength(n / 16, k - 1);
    }
  }

  /** Left-pads with '0' up to the width; a longer string is kept whole. */
  function ZeroPad(s: string, width: nat): (r: string)
    ensures |r| >= width && |r| >= |s|
    ensures IsLowerHex(s) ==> IsLowerHex(r)
  {
    if |s| >= width then s else Repeat('0', width - |s|) + s
  }

  /** Leading zeros do not change a hex value. */
  lemma {:induction false} HexValueLeadingZeros(k: nat, s: string)
    requires IsLowerHex(s)
    ensures IsLowerHex(Repeat('0', k) + s) && HexValue(Repeat('0', k) + s) == HexValue(s)
    decreases |s|
  {
    var z := Repeat('0', k) + s;
    if s == [] {
      assert z == Repeat('0', k);
      ZerosValue(k);
    } else {
      HexValueLeadingZeros(k, s[..|s| - 1]);
      assert z[..|z| - 1] == Repeat('0', k) + s[..|s| - 1];
    }
  }

  lemma {:induction false} ZerosValue(k: nat)
    ensures HexValue(Repeat('0', k)) == 0
  {
    if k > 0 {
      ZerosValue(k - 1);
      assert Repeat('0', k)[..k - 1] == Repeat('0', k - 1);
    }
  }

  /** An ID as the script writes it: '0x' + '{0:08x}'. Python pads to a
      total width of 8 with zeros after the sign, so a negative value gets
      '-' and 7 padded digits. */
  function FormatHexId(v: int): (s: string)
    ensures |s| >= 10 && s[..2] == "0x"
    ensures v < 0 <==> s[2] == '-'
    ensures v >= 0 ==> IsLowerHex(s[2..])
    ensures v < 0 ==> IsLowerHex(s[3..])
  {
    if v >= 0 then "0x" + ZeroPad(HexDigits(v), 8) else "0x-" + ZeroPad(HexDigits(-v), 7)
  }

  /** Padding keeps the digits' value and makes the string at least as
      long as the width. */
  lemma ZeroPadValue(s: string, width: nat)
    requires IsLowerHex(s)
    ensures IsLowerHex(ZeroPad(s, width)) && HexValue(ZeroPad(s, width)) == HexValue(s)
    ensures |ZeroPad(s, width)| == Max(|s|, width)
  {
    if |s| < width {
      HexValueLeadingZeros(width - |s|, s);
    }
  }

  /** A non-negative ID renders as '0x' followed by lowercase hex digits
      that read back as the ID; below 2^32 that is exactly 8 digits. */
  lemma FormatHexIdRoundTrip(v: nat)
    ensures |FormatHexId(v)| >= 10 && FormatHexId(v)[..2] == "0x"
    ensures IsLowerHex(FormatHexId(v)[2..]) && HexValue(FormatHexId(v)[2..]) == v
    ensures v < 0x1_0000_0000 ==> |FormatHexId(v)| == 10
  {
    var d := HexDigits(v);
    var body := ZeroPad(d, 8);
    var f := FormatHexId(v);
    assert f == "0x" + body;
    HexDigitsRoundTrip(v);
    ZeroPadValue(d, 8);
    assert f[2..] == body;
    if v < 0x1_0000_0000 {
      assert Pow16(8) == 0x1_0000_0000;
      HexDigitsLength(v, 8);
    }
  }

  /** A negative ID (a seeded first-id can go below zero) renders as '0x-'
      followed by the digits of its magnitude, padded to 7. */
  lemma FormatNegativeHexId(v: int)
    requires v < 0
    ensures |FormatHexId(v)| >= 10 && FormatHexId(v)[..3] == "0x-"
    ensures IsLowerHex(FormatHexId(v)[3..]) && HexValue(FormatHexId(v)[3..]) == -v
    ensures -v < Pow16(7) ==> |FormatHexId(v)| == 10
  {
    var m: nat := -v;
    var d := HexDigits(m);
    var body := ZeroPad(d, 7);
    var f := FormatHexId(v);
    assert f == "0x-" + body;
    HexDigitsRoundTrip(m);
    ZeroPadValue(d, 7);
    assert f[3..] == body;
    assert IsLowerHex(f[3..]) && HexValue(f[3..]) == m;
    if m < Pow16(7) {
      HexDigitsLength(m, 7);
    }
  }

  // ---------------------------------------------------------------------
  // Whitespace normalisation of the finalised text
  // ---------------------------------------------------------------------

  /** re.sub(r' *\n', '\n', s) scanned left to right; `pending` counts the
      spaces seen since the last other character. */
  function TrimFrom(s: string, pending: nat): string
  {
    if s == [] then Repeat(' ', pending)
    else if s[0] == ' ' then TrimFrom(s[1..], pending + 1)
    else if s[0] == '\n' then "\n" + TrimFrom(s[1..], 0)
    else Repeat(' ', pending) + [s[0]] + TrimFrom(s[1..], 0)
  }

  /** Removes the spaces that stand before a newline. */
  function TrimSpacesBeforeNewlines(s: string): (r: string)
    ensures NoSpaceBeforeNewline(r)
  {
    TrimFromProperties(s, 0);
    TrimFrom(s, 0)
  }

  /** No space is left in front of a newline. */
  predicate NoSpaceBeforeNewline(s: string)
  {
    forall i :: 0 <= i < |s| - 1 ==> !(s[i] == ' ' && s[i + 1] == '\n')
  }

  /** The characters other than spaces, in order. */
  function NonSpaces(s: string): string
  {
    if s == [] then [] else (if s[0] == ' ' then [] else [s[0]]) + NonSpaces(s[1..])
  }

  lemma {:induction false} NonSpacesAppend(a: string, b: string)
    ensures NonSpaces(a + b) == NonSpaces(a) + NonSpaces(b)
    decreases |a|
  {
    if a != [] {
      NonSpacesAppend(a[1..], b);
      assert (a + b)[1..] == a[1..] + b;
    } else {
      assert a + b == b;
    }
  }

  lemma {:induction false} NonSpacesOfSpaces(k: nat)
    ensures NonSpaces(Repeat(' ', k)) == []
  {
    if k > 0 {
      NonSpacesOfSpaces(k - 1);
      NonSpacesAppend(Repeat(' ', k - 1), [' ']);
    }
  }

  /** Trimming only deletes spaces, and leaves none before a newline; the
      result starts with a newline or a space only where the input's
      remainder does. */
  lemma {:induction false} TrimFromProperties(s: string, pending: nat)
    ensures NonSpaces(TrimFrom(s, pending)) == NonSpaces(s)
    ensures NoSpaceBeforeNewline(TrimFrom(s, pending))
    ensures s != [] && s[0] == '\n' ==> TrimFrom(s, pending)[0] == '\n'
    decreases |s|
  {
    var r := TrimFrom(s, pending);
    if s == [] {
      NonSpacesOfSpaces(pending);
    } else if s[0] == ' ' {
      TrimFromProperties(s[1..], pending + 1);
    } else if s[0] == '\n' {
      TrimFromProperties(s[1..], 0);
      var t := TrimFrom(s[1..], 0);
      NonSpacesAppend("\n", t);
      assert r[1..] == t;
    } else {
      TrimFromProperties(s[1..], 0);
      var t := TrimFrom(s[1..], 0);
      NonSpacesAppend(Repeat(' ', pending) + [s[0]], t);
      NonSpacesAppend(Repeat(' ', pending), [s[0]]);
      NonSpacesOfSpaces(pending);
      var p := Repeat(' ', pending) + [s[0]];
      assert r == p + t;
      forall i | 0 <= i < |r| - 1
        ensures !(r[i] == ' ' && r[i + 1] == '\n')
      {
        if i < |p| - 1 {
          assert r[i + 1] == ' ' || r[i + 1] == s[0];
        } else if i == |p| - 1 {
          assert r[i] == s[0];
        } else {
          assert r[i] == t[i - |p|] && r[i + 1] == t[i + 1 - |p|];
        }
      }
    }
  }

  /** The trimmed text has the input's non-space characters in order and no
      space before any newline. */
  lemma TrimSpacesBeforeNewlinesCorrect(s: string)
    ensures NonSpaces(TrimSpacesBeforeNewlines(s)) == NonSpaces(s)
    ensures NoSpaceBeforeNewline(TrimSpacesBeforeNewlines(s))
  {
    TrimFromProperties(s, 0);
  }

  /** Spaces and then a newline leave just the newline, whatever was
      pending. */
  lemma {:induction false} TrimFromSpacesNewline(k: nat, b: string, pending: nat)
    ensures TrimFrom(Repeat(' ', k) + "\n" + b, pending) == "\n" + TrimFrom(b, 0)
    decreases k
  {
    var s := Repeat(' ', k) + "\n" + b;
    if k > 0 {
      assert s[0] == ' ';
      assert s[1..] == Repeat(' ', k - 1) + "\n" + b;
      TrimFromSpacesNewline(k - 1, b, pending + 1);
    } else {
      assert s == "\n" + b;
      assert s[1..] == b;
    }
  }

  /** Text that ends in something other than a space leaves nothing
      pending, so what follows it is trimmed on its own. */
  lemma {:induction false} TrimFromAppend(a: string, r: string, pending: nat)
    requires (a == [] && pending == 0) || (a != [] && a[|a| - 1] != ' ')
    ensures TrimFrom(a + r, pending) == TrimFrom(a, pending) + TrimFrom(r, 0)
    decreases |a|
  {
    if a == [] {
      assert a + r == r;
    } else {
      assert (a + r)[0] == a[0] && (a + r)[1..] == a[1..] + r;
      if a[0] == ' ' {
        TrimFromAppend(a[1..], r, pending + 1);
      } else {
        TrimFromAppend(a[1..], r, 0);
      }
    }
  }

  /** Trimming acts on a run of spaces before a newline exactly: the run
      goes, and the text on either side is trimmed on its own. A space not
      followed by a newline therefore stays. */
  lemma TrimSpacesBeforeNewlinesRun(a: string, k: nat, b: string)
    requires a == [] || a[|a| - 1] != ' '
    ensures TrimSpacesBeforeNewlines(a + Repeat(' ', k) + "\n" + b)
            == TrimSpacesBeforeNewlines(a) + "\n" + TrimSpacesBeforeNewlines(b)
  {
    var rest := Repeat(' ', k) + "\n" + b;
    assert a + Repeat(' ', k) + "\n" + b == a + rest;
    TrimFromAppend(a, rest, 0);
    TrimFromSpacesNewline(k, b, 0);
  }

  /** Text without a newline is left as it is, spaces included. */
  lemma TrimNoNewline(s: string)
    requires forall i :: 0 <= i < |s| ==> s[i] != '\n'
    ensures TrimSpacesBeforeNewlines(s) == s
  {
    assert Repeat(' ', 0) + s == s;
    TrimFromFixedPoint(s, 0);
  }

  /** Text that has no space before a newline passes through unchanged. */
  lemma {:induction false} TrimFromFixedPoint(s: string, pending: nat)
    requires NoSpaceBeforeNewline(Repeat(' ', pending) + s)
    ensures TrimFrom(s, pending) == Repeat(' ', pending) + s
    decreases |s|
  {
    var w := Repeat(' ', pending) + s;
    if s == [] {
      assert w == Repeat(' ', pending);
    } else if s[0] == ' ' {
      assert Repeat(' ', pending + 1) + s[1..] == w;
      TrimFromFixedPoint(s[1..], pending + 1);
    } else {
      if pending > 0 {
        assert w[pending - 1] == ' ' && w[pending] == s[0];
      }
      assert NoSpaceBeforeNewline(s[1..]) by {
        forall i | 0 <= i < |s[1..]| - 1
          ensures !(s[1..][i] == ' ' && s[1..][i + 1] == '\n')
        {
          assert s[1..][i] == w[pending + 1 + i] && s[1..][i + 1] == w[pending + 2 + i];
        }
      }
      TrimFromFixedPoint(s[1..], 0);
      assert s == [s[0]] + s[1..];
    }
  }

  /** Trimming changes exactly the texts that have a space before a
      newline, so trimming twice is trimming once. */
  lemma TrimSpacesBeforeNewlinesIdempotent(s: string)
    ensures TrimSpacesBeforeNewlines(s) == s <==> NoSpaceBeforeNewline(s)
    ensures TrimSpacesBeforeNewlines(TrimSpacesBeforeNewlines(s)) == TrimSpacesBeforeNewlines(s)
  {
    TrimSpacesBeforeNewlinesCorrect(s);
    if NoSpaceBeforeNewline(s) {
      assert Repeat(' ', 0) + s == s;
      TrimFromFixedPoint(s, 0);
    }
    var t := TrimSpacesBeforeNewlines(s);
    assert Repeat(' ', 0) + t == t;
    TrimFromFixedPoint(t, 0);
  }

  /** The length of the run of newlines the text starts with. */
  function LeadingNewlines(s: string): (k: nat)
    ensures k <= |s|
    ensures forall i :: 0 <= i < k ==> s[i] == '\n'
    ensures k < |s| ==> s[k] != '\n'
  {
    if s != [] && s[0] == '\n' then 1 + LeadingNewlines(s[1..]) else 0
  }

  /** re.sub(r'\n{3,}', '\n\n', s): scanning left to right, a run of three
      or more newlines becomes exactly two and a shorter run is kept. */
  function CollapseBlankLines(s: string): (r: string)
    ensures s != [] && s[0] != '\n' ==> r != [] && r[0] == s[0]
    ensures NoTripleNewline(r)
    decreases |s|
  {
    if s == [] then []
    else if s[0] != '\n' then
      var t := CollapseBlankLines(s[1..]);
      PrefixNoTripleNewline(s[0], t);
      [s[0]] + t
    else
      var k := LeadingNewlines(s);
      var t := CollapseBlankLines(s[k..]);
      GlueNewlines(if k >= 3 then 2 else k, t);
      Repeat('\n', if k >= 3 then 2 else k) + t
  }

  /** No three newlines in a row. */
  predicate NoTripleNewline(s: string)
  {
    forall i :: 0 <= i < |s| - 2 ==> !(s[i] == '\n' && s[i + 1] == '\n' && s[i + 2] == '\n')
  }

  /** The characters other than newlines, in order. */
  function NonNewlines(s: string): string
  {
    if s == [] then [] else (if s[0] == '\n' then [] else [s[0]]) + NonNewlines(s[1..])
  }

  lemma {:induction false} NonNewlinesAppend(a: string, b: string)
    ensures NonNewlines(a + b) == NonNewlines(a) + NonNewlines(b)
    decreases |a|
  {
    if a != [] {
      NonNewlinesAppend(a[1..], b);
      assert (a + b)[1..] == a[1..] + b;
    } else {
      assert a + b == b;
    }
  }

  lemma {:induction false} NonNewlinesOfNewlines(k: nat)
    ensures NonNewlines(Repeat('\n', k)) == []
  {
    if k > 0 {
      NonNewlinesOfNewlines(k - 1);
      NonNewlinesAppend(Repeat('\n', k - 1), ['\n']);
    }
  }

  /** A character other than a newline in front of a text without a
      triple newline leaves it without one. */
  lemma PrefixNoTripleNewline(c: char, t: string)
    requires c != '\n' && NoTripleNewline(t)
    ensures NoTripleNewline([c] + t)
  {
    var r := [c] + t;
    forall i | 0 <= i < |r| - 2
      ensures !(r[i] == '\n' && r[i + 1] == '\n' && r[i + 2] == '\n')
    {
      if i > 0 {
        assert r[i] == t[i - 1] && r[i + 1] == t[i] && r[i + 2] == t[i + 1];
      }
    }
  }

  /** At most two newlines glued in front of a text that has no triple
      newline and does not start with a newline leave it without one. */
  lemma GlueNewlines(m: nat, t: string)
    requires m <= 2 && NoTripleNewline(t)
    requires t == [] || t[0] != '\n'
    ensures NoTripleNewline(Repeat('\n', m) + t)
  {
    var r := Repeat('\n', m) + t;
    forall i | 0 <= i < |r| - 2
      ensures !(r[i] == '\n' && r[i + 1] == '\n' && r[i + 2] == '\n')
    {
      if i >= m {
        assert r[i] == t[i - m] && r[i + 1] == t[i + 1 - m] && r[i + 2] == t[i + 2 - m];
      } else {
        assert r[m] == t[0];
      }
    }
  }

  /** Collapsing keeps every other character in order and leaves no three
      newlines in a row; it keeps a leading character that is not a newline. */
  lemma {:induction false} CollapseBlankLinesCorrect(s: string)
    ensures NonNewlines(CollapseBlankLines(s)) == NonNewlines(s)
    ensures NoTripleNewline(CollapseBlankLines(s))
    ensures s != [] && s[0] != '\n' ==> CollapseBlankLines(s) != [] && CollapseBlankLines(s)[0] == s[0]
    decreases |s|
  {
    if s == [] {
    } else if s[0] != '\n' {
      CollapseBlankLinesCorrect(s[1..]);
      var t := CollapseBlankLines(s[1..]);
      NonNewlinesAppend([s[0]], t);
    } else {
      var k := LeadingNewlines(s);
      var m := if k >= 3 then 2 else k;
      CollapseBlankLinesCorrect(s[k..]);
      var t := CollapseBlankLines(s[k..]);
      assert s == Repeat('\n', k) + s[k..];
      NonNewlinesAppend(Repeat('\n', k), s[k..]);
      NonNewlinesAppend(Repeat('\n', m), t);
      NonNewlinesOfNewlines(k);
      NonNewlinesOfNewlines(m);
    }
  }

  /** Text without three newlines in a row passes through unchanged. */
  lemma {:induction false} CollapseFixedPoint(s: string)
    requires NoTripleNewline(s)
    ensures CollapseBlankLines(s) == s
    decreases |s|
  {
    if s == [] {
    } else if s[0] != '\n' {
      NoTripleNewlineSuffix(s, 1);
      CollapseFixedPoint(s[1..]);
      assert s == [s[0]] + s[1..];
    } else {
      var k := LeadingNewlines(s);
      assert |s| >= 3 ==> !(s[0] == '\n' && s[1] == '\n' && s[2] == '\n');
      assert k <= 2;
      NoTripleNewlineSuffix(s, k);
      CollapseFixedPoint(s[k..]);
      assert s == Repeat('\n', k) + s[k..];
    }
  }

  lemma NoTripleNewlineSuffix(s: string, k: nat)
    requires k <= |s| && NoTripleNewline(s)
    ensures NoTripleNewline(s[k..])
  {
    var t := s[k..];
    forall i | 0 <= i < |t| - 2
      ensures !(t[i] == '\n' && t[i + 1] == '\n' && t[i + 2] == '\n')
    {
      assert t[i] == s[k + i] && t[i + 1] == s[k + i + 1] && t[i + 2] == s[k + i + 2];
    }
  }

  /** Collapsing changes exactly the texts with three newlines in a row,
      so collapsing twice is collapsing once. */
  lemma CollapseBlankLinesIdempotent(s: string)
    ensures CollapseBlankLines(s) == s <==> NoTripleNewline(s)
    ensures CollapseBlankLines(CollapseBlankLines(s)) == CollapseBlankLines(s)
  {
    CollapseBlankLinesCorrect(s);
    if NoTripleNewline(s) {
      CollapseFixedPoint(s);
    }
    CollapseFixedPoint(CollapseBlankLines(s));
  }

  /** A maximal run of k newlines, between a text that does not end in a
      newline and one that does not start with one, becomes exactly two
      newlines when k >= 3 and stays as it is otherwise; the text on either
      side is collapsed on its own. */
  lemma {:induction false} CollapseBlankLinesRun(a: string, k: nat, b: string)
    requires a == [] || a[|a| - 1] != '\n'
    requires b == [] || b[0] != '\n'
    ensures CollapseBlankLines(a + Repeat('\n', k) + b)
            == CollapseBlankLines(a) + Repeat('\n', if k >= 3 then 2 else k) + CollapseBlankLines(b)
    decreases |a|
  {
    if a == [] {
      assert a + Repeat('\n', k) + b == Repeat('\n', k) + b;
      CollapseLeadingRun(k, b);
    } else if a[0] != '\n' {
      CollapseBlankLinesRun(a[1..], k, b);
      CollapseRunPastChar(a, k, b);
    } else {
      var j := LeadingNewlines(a);
      assert a[j..] != [] && a[j..][0] != '\n' && a[j..][|a[j..]| - 1] == a[|a| - 1];
      CollapseBlankLinesRun(a[j..], k, b);
      CollapseRunPastRun(a, j, k, b);
    }
  }

  /** The step of CollapseBlankLinesRun past a leading character that is
      not a newline. */
  lemma CollapseRunPastChar(a: string, k: nat, b: string)
    requires a != [] && a[0] != '\n'
    requires CollapseBlankLines(a[1..] + Repeat('\n', k) + b)
             == CollapseBlankLines(a[1..]) + Repeat('\n', if k >= 3 then 2 else k) + CollapseBlankLines(b)
    ensures CollapseBlankLines(a + Repeat('\n', k) + b)
            == CollapseBlankLines(a) + Repeat('\n', if k >= 3 then 2 else k) + CollapseBlankLines(b)
  {
    var n := Repeat('\n', if k >= 3 then 2 else k);
    var rest := a[1..] + Repeat('\n', k) + b;
    SplitFirst(a, Repeat('\n', k), b);
    CollapseCons(a[0], rest);
    CollapseCons(a[0], a[1..]);
    AppendRegroup([a[0]], CollapseBlankLines(a[1..]), n, CollapseBlankLines(b));
  }

  /** The step of CollapseBlankLinesRun past a leading run of j newlines. */
  lemma CollapseRunPastRun(a: string, j: nat, k: nat, b: string)
    requires j == LeadingNewlines(a) && j < |a|
    requires CollapseBlankLines(a[j..] + Repeat('\n', k) + b)
             == CollapseBlankLines(a[j..]) + Repeat('\n', if k >= 3 then 2 else k) + CollapseBlankLines(b)
    ensures CollapseBlankLines(a + Repeat('\n', k) + b)
            == CollapseBlankLines(a) + Repeat('\n', if k >= 3 then 2 else k) + CollapseBlankLines(b)
  {
    var n := Repeat('\n', if k >= 3 then 2 else k);
    var tail := a[j..];
    var rest := tail + Repeat('\n', k) + b;
    var m := Repeat('\n', if j >= 3 then 2 else j);
    SplitLeadingRun(a, j, Repeat('\n', k), b);
    CollapseLeadingRun(j, tail);
    CollapseLeadingRun(j, rest);
    AppendRegroup(m, CollapseBlankLines(tail), n, CollapseBlankLines(b));
  }

  /** A text is its first character followed by the rest, also when more
      text follows. */
  lemma SplitFirst(a: string, r: string, t: string)
    requires a != []
    ensures a == [a[0]] + a[1..]
    ensures a + r + t == [a[0]] + (a[1..] + r + t)
  {
  }

  /** A text is its leading run of j newlines followed by the rest, also
      when more text follows; the rest starts with something else. */
  lemma SplitLeadingRun(a: string, j: nat, r: string, t: string)
    requires j == LeadingNewlines(a) && j < |a|
    ensures a == Repeat('\n', j) + a[j..]
    ensures a + r + t == Repeat('\n', j) + (a[j..] + r + t)
    ensures (a[j..] + r + t)[0] == a[j..][0] && a[j..][0] != '\n'
  {
    var tail := a[j..];
    var n := Repeat('\n', j);
    assert a == n + tail by {
      assert |a| == |n + tail|;
      forall i | 0 <= i < |a|
        ensures a[i] == (n + tail)[i]
      {
        if i >= j {
          assert tail[i - j] == a[i];
        }
      }
    }
    AppendRegroup(n, tail, r, t);
  }

  lemma AppendRegroup(w: string, x: string, y: string, z: string)
    ensures w + (x + y + z) == (w + x) + y + z
  {
  }

  /** A character other than a newline is copied and the rest collapsed. */
  lemma CollapseCons(c: char, t: string)
    requires c != '\n'
    ensures CollapseBlankLines([c] + t) == [c] + CollapseBlankLines(t)
  {
    assert ([c] + t)[1..] == t;
  }

  /** A leading run of j newlines before a text that does not start with
      one becomes min(j, 2) newlines. */
  lemma CollapseLeadingRun(j: nat, t: string)
    requires t == [] || t[0] != '\n'
    ensures CollapseBlankLines(Repeat('\n', j) + t)
            == Repeat('\n', if j >= 3 then 2 else j) + CollapseBlankLines(t)
  {
    var s := Repeat('\n', j) + t;
    if j == 0 {
      assert s == t;
    } else {
      LeadingNewlinesOf(Repeat('\n', j), t);
      assert s[0] == '\n';
      assert s[j..] == t;
    }
  }

  /** A run of j newlines in front of a text that does not start with one
      is exactly the leading run. */
  lemma LeadingNewlinesOf(n: string, t: string)
    requires forall i :: 0 <= i < |n| ==> n[i] == '\n'
    requires t == [] || t[0] != '\n'
    ensures LeadingNewlines(n + t) == |n|
  {
    assert |n| < |n + t| ==> (n + t)[|n|] == t[0];
  }

  // ---------------------------------------------------------------------
  // Removed names: re.match(r'_*removed.+', name)
  // ---------------------------------------------------------------------

  /** The pattern '_*removed.+' matches from the start of the name: past
      the leading underscores come "removed" and at least one more
      character other than a newline ('.' does not match one); the match
      need not reach the end of the name. */
  predicate IsRemovedName(name: string): (b: bool)
    ensures b ==> |name| >= 8
    decreases |name|
  {
    if name != [] && name[0] == '_' then IsRemovedName(name[1..])
    else 7 < |name| && name[..7] == "removed" && name[7] != '\n'
  }

  /** The pattern matches with its underscore run ending at k. */
  predicate MatchesRemovedAt(name: string, k: nat)
  {
    k + 7 < |name|
    && (forall i :: 0 <= i < k ==> name[i] == '_')
    && name[k..k + 7] == "removed"
    && name[k + 7] != '\n'
  }

  /** Stripping the underscores first agrees with the regular expression,
      which may split '_*' from "removed" anywhere: some split point makes
      the name match exactly when IsRemovedName holds. */
  lemma {:induction false} IsRemovedNameMatchesPattern(name: string)
    ensures IsRemovedName(name) <==> exists k: nat :: MatchesRemovedAt(name, k)
    decreases |name|
  {
    if name != [] && name[0] == '_' {
      var rest := name[1..];
      IsRemovedNameMatchesPattern(rest);
      if IsRemovedName(name) {
        var k: nat :| MatchesRemovedAt(rest, k);
        MatchPastUnderscore(name, k);
      }
      if k: nat :| MatchesRemovedAt(name, k) {
        MatchAfterUnderscores(name, k);
        MatchPastUnderscore(name, k - 1);
      }
    } else {
      if IsRemovedName(name) {
        assert MatchesRemovedAt(name, 0);
      }
      if k: nat :| MatchesRemovedAt(name, k) {
        assert k == 0;
      }
    }
  }

  /** A match in the text after a leading underscore is a match one place
      further on in the whole text, and back. */
  lemma MatchPastUnderscore(name: string, k: nat)
    requires name != [] && name[0] == '_'
    ensures MatchesRemovedAt(name[1..], k) <==> MatchesRemovedAt(name, k + 1)
  {
    if k + 8 < |name| {
      assert name[1..][k..k + 7] == name[k + 1..k + 8];
      assert name[1..][k + 7] == name[k + 8];
      assert forall i :: 0 < i < k + 1 ==> name[1..][i - 1] == name[i];
    }
  }

  /** "removed" starts with 'r', so under a leading underscore a match
      starts one place in at least. */
  lemma MatchAfterUnderscores(name: string, k: nat)
    requires name != [] && name[0] == '_' && MatchesRemovedAt(name, k)
    ensures k >= 1
  {
    assert name[k] == name[k..k + 7][0] == 'r';
  }


  // ---------------------------------------------------------------------
  // ID assignment within a group
  // ---------------------------------------------------------------------

  /** The names that are not removed, in source order. */
  function Kept(names: seq<string>): (kept: seq<string>)
    ensures |kept| <= |names|
  {
    if names == [] then []
    else
      var last := names[|names| - 1];
      Kept(names[..|names| - 1]) + (if IsRemovedName(last) then [] else [last])
  }

  /** The declarations the group's entries produce, numbered from `first`,
      one per name that is not removed. */
  function Assigned(resType: string, names: seq<string>, first: int): seq<PublicEntry>
  {
    if names == [] then []
    else
      var earlier := Assigned(resType, names[..|names| - 1], first);
      var last := names[|names| - 1];
      if IsRemovedName(last) then earlier
      else earlier + [PublicEntry(resType, last, first + |earlier|)]
  }

  /** The kept names get consecutive IDs first, first + 1, ... in source
      order: no holes, no removed name takes an ID. */
  lemma {:induction false} AssignedConsecutive(resType: string, names: seq<string>, first: int)
    ensures |Assigned(resType, names, first)| == |Kept(names)|
    ensures forall j :: 0 <= j < |Kept(names)| ==>
              Assigned(resType, names, first)[j] == PublicEntry(resType, Kept(names)[j], first + j)
  {
    if names != [] {
      AssignedConsecutive(resType, names[..|names| - 1], first);
    }
  }

  /** One <public type=.. name=.. id=.. /> line. */
  function PublicLine(e: PublicEntry): string
  {
    "  <public type=\"" + e.resType + "\" name=\"" + e.name + "\" id=\"" + FormatHexId(e.id) + "\" />\n"
  }

  /** The text the substitution callback returns for one entry. */
  function ItemLine(entry: Option<PublicEntry>): string
  {
    if entry.Some? then PublicLine(entry.value) else ""
  }


  // ---------------------------------------------------------------------
  // Collecting the finalised IDs
  // ---------------------------------------------------------------------

  /** A counter with dict.get(t, 0). */
  function Get0(m: map<string, int>, t: string): int
  {
    if t in m then m[t] else 0
  }

  /** The counters after reading the finalised entries in order: each type
      keeps max(id + 1, current counter or 0). */
  function CollectedIds(m: map<string, int>, existing: seq<PublicEntry>): map<string, int>
  {
    if existing == [] then m
    else
      var earlier := CollectedIds(m, existing[..|existing| - 1]);
      var e := existing[|existing| - 1];
      earlier[e.resType := Max(e.id + 1, Get0(earlier, e.resType))]
  }

  /** After collecting, every counter is above every finalised ID of its
      type, no counter went down, and each counter is the least such value:
      either what it was (0 when absent) or some finalised ID plus one. */
  lemma {:induction false} CollectedIdsBounds(m: map<string, int>, existing: seq<PublicEntry>)
    ensures forall t :: t in m ==> t in CollectedIds(m, existing) && CollectedIds(m, existing)[t] >= m[t]
    ensures forall i :: 0 <= i < |existing| ==>
              existing[i].resType in CollectedIds(m, existing)
              && CollectedIds(m, existing)[existing[i].resType] > existing[i].id
    ensures forall t :: t in CollectedIds(m, existing) ==>
              (t in m || exists i :: 0 <= i < |existing| && existing[i].resType == t)
    ensures forall t :: t in CollectedIds(m, existing) ==>
              CollectedIds(m, existing)[t] == Get0(m, t)
              || exists i :: 0 <= i < |existing| && existing[i].resType == t
                             && CollectedIds(m, existing)[t] == existing[i].id + 1
  {
    CollectedIdsAbove(m, existing);
    CollectedIdsOrigin(m, existing);
  }

  /** The lower bounds: no counter goes down, and each ends above the
      finalised IDs of its type. */
  lemma {:induction false} CollectedIdsAbove(m: map<string, int>, existing: seq<PublicEntry>)
    ensures forall t :: t in m ==> t in CollectedIds(m, existing) && CollectedIds(m, existing)[t] >= m[t]
    ensures forall i :: 0 <= i < |existing| ==>
              existing[i].resType in CollectedIds(m, existing)
              && CollectedIds(m, existing)[existing[i].resType] > existing[i].id
  {
    if existing != [] {
      var pre := existing[..|existing| - 1];
      CollectedIdsAbove(m, pre);
      var r := CollectedIds(m, existing);
      forall i | 0 <= i < |existing|
        ensures existing[i].resType in r && r[existing[i].resType] > existing[i].id
      {
        if i < |existing| - 1 {
          assert existing[i] == pre[i];
        }
      }
    }
  }

  /** Where each counter comes from: a type already counted or a finalised
      entry, and its value is the old one or some finalised ID plus one. */
  lemma {:induction false} CollectedIdsOrigin(m: map<string, int>, existing: seq<PublicEntry>)
    ensures forall t :: t in CollectedIds(m, existing) ==>
              (t in m || exists i :: 0 <= i < |existing| && existing[i].resType == t)
    ensures forall t :: t in CollectedIds(m, existing) ==>
              CollectedIds(m, existing)[t] == Get0(m, t)
              || exists i :: 0 <= i < |existing| && existing[i].resType == t
                             && CollectedIds(m, existing)[t] == existing[i].id + 1
  {
    if existing != [] {
      var pre := existing[..|existing| - 1];
      CollectedIdsOrigin(m, pre);
      CollectedIdsAbove(m, pre);
      var r := CollectedIds(m, existing);
      var e := existing[|existing| - 1];
      forall t | t in r
        ensures t in m || exists i :: 0 <= i < |existing| && existing[i].resType == t
      {
        if t != e.resType && t !in m {
          var i :| 0 <= i < |pre| && pre[i].resType == t;
          assert existing[i] == pre[i];
        }
      }
      forall t | t in r
        ensures r[t] == Get0(m, t)
                || exists i :: 0 <= i < |existing| && existing[i].resType == t && r[t] == existing[i].id + 1
      {
        if t == e.resType && r[t] == e.id + 1 {
          assert existing[|existing| - 1].resType == t;
        } else if r[t] != Get0(m, t) {
          var i :| 0 <= i < |pre| && pre[i].resType == t && CollectedIds(m, pre)[t] == pre[i].id + 1;
          assert existing[i] == pre[i];
        }
      }
    }
  }

  // ---------------------------------------------------------------------
  // The lowest first-id of the non-empty groups
  // ---------------------------------------------------------------------

  /** The lowest first-id after a run of groups: each group with entries
      lowers it to its first-id when that is smaller. */
  function LowestFirstId(lowest: int, groups: seq<StagingGroup>): int
  {
    if groups == [] then lowest
    else
      var g := groups[|groups| - 1];
      var earlier := LowestFirstId(lowest, groups[..|groups| - 1]);
      if |g.names| > 0 then Min(g.firstId, earlier) else earlier
  }

  lemma LowestFirstIdStep(lowest: int, groups: seq<StagingGroup>, i: nat)
    requires i < |groups|
    ensures LowestFirstId(lowest, groups[..i + 1])
            == if |groups[i].names| > 0 then Min(groups[i].firstId, LowestFirstId(lowest, groups[..i]))
               else LowestFirstId(lowest, groups[..i])
  {
    assert groups[..i + 1][..i] == groups[..i];
  }

  /** The lowest first-id never increases, lies at or below every non-empty
      group's first-id, and is the starting value or one of those first-ids. */
  lemma {:induction false} LowestFirstIdBounds(lowest: int, groups: seq<StagingGroup>)
    ensures LowestFirstId(lowest, groups) <= lowest
    ensures forall i :: 0 <= i < |groups| && |groups[i].names| > 0 ==>
              LowestFirstId(lowest, groups) <= groups[i].firstId
    ensures LowestFirstId(lowest, groups) == lowest
            || exists i :: 0 <= i < |groups| && |groups[i].names| > 0
                           && LowestFirstId(lowest, groups) == groups[i].firstId
  {
    if groups != [] {
      var pre := groups[..|groups| - 1];
      LowestFirstIdBounds(lowest, pre);
      forall i | 0 <= i < |groups| && |groups[i].names| > 0
        ensures LowestFirstId(lowest, groups) <= groups[i].firstId
      {
        if i < |groups| - 1 {
          assert groups[i] == pre[i];
        }
      }
      if LowestFirstId(lowest, groups) != lowest
         && LowestFirstId(lowest, groups) != groups[|groups| - 1].firstId {
        var i :| 0 <= i < |pre| && |pre[i].names| > 0 && LowestFirstId(lowest, pre) == pre[i].firstId;
        assert groups[i] == pre[i];
      }
    }
  }

  // ---------------------------------------------------------------------
  // The module state of the script
  // ---------------------------------------------------------------------

  /** The script's module-level state: the per-type ID counters, the type
      of the group being finalised, and the lowest staging first-id. */
  class Finalizer {
    var typeIds: map<string, int>
    var currentType: string
    var lowestStagingFirstId: int

    constructor ()
      ensures typeIds == map[] && currentType == ""
      ensures lowestStagingFirstId == INITIAL_LOWEST_STAGING_FIRST_ID
    {
      typeIds := map[];
      currentType := "";
      lowestStagingFirstId := INITIAL_LOWEST_STAGING_FIRST_ID;
    }

    /** Reads the already finalised entries and raises each type's counter
        above their IDs. */
    method CollectIds(existing: seq<PublicEntry>)
      modifies this`typeIds
      ensures typeIds == CollectedIds(old(typeIds), existing)
    {
      var i := 0;
      while i < |existing|
        invariant 0 <= i <= |existing|
        invariant typeIds == CollectedIds(old(typeIds), existing[..i])
      {
        var e := existing[i];
        assert existing[..i + 1][..i] == existing[..i];
        typeIds := typeIds[e.resType := Max(e.id + 1, Get0(typeIds, e.resType))];
        i := i + 1;
      }
      assert existing[..i] == existing;
    }

    /** One staging entry, as the substitution callback sees it: a removed
        name yields nothing (the callback's empty string) and takes no ID;
        any other name takes the current type's counter and advances it.
        The text the callback returns is ItemLine of the result. */
    method FinalizeItem(name: string) returns (entry: Option<PublicEntry>)
      requires currentType in typeIds
      modifies this`typeIds
      ensures IsRemovedName(name) ==> entry == None && typeIds == old(typeIds)
      ensures !IsRemovedName(name) ==>
                entry == Some(PublicEntry(currentType, name, old(typeIds[currentType])))
                && typeIds == old(typeIds)[currentType := old(typeIds[currentType]) + 1]
    {
      if IsRemovedName(name) {
        return None;
      }
      var id := typeIds[currentType];
      typeIds := typeIds[currentType := id + 1];
      entry := Some(PublicEntry(currentType, name, id));
    }

    /** The entries of one group, in source order, as the substitution
        over the group's inner text visits them: each kept name takes the
        type's counter and advances it. */
    method FinalizeItems(names: seq<string>) returns (decls: seq<PublicEntry>)
      requires currentType in typeIds
      modifies this`typeIds
      ensures decls == Assigned(currentType, names, old(typeIds[currentType]))
      ensures typeIds == old(typeIds)[currentType := old(typeIds[currentType]) + |Kept(names)|]
    {
      var t := currentType;
      ghost var first := typeIds[t];
      ghost var initial := typeIds;
      decls := [];
      var i := 0;
      while i < |names|
        invariant 0 <= i <= |names|
        invariant currentType == t
        invariant decls == Assigned(t, names[..i], first)
        invariant typeIds == initial[t := first + |decls|]
      {
        ghost var before := typeIds;
        var entry := FinalizeItem(names[i]);
        FinalizeItemStep(initial, t, names, i, first, decls, before, typeIds, entry);
        if entry.Some? {
          decls := decls + [entry.value];
          assert typeIds == initial[t := first + |decls|];
        }
        i := i + 1;
      }
      assert names[..i] == names;
      AssignedConsecutive(t, names, first);
    }

    /** The substitution over the staging text: every group in order.
        Each group's names are numbered from the counter its type has after
        the groups before it, and the lowest first-id follows the non-empty
        groups (FinalizedKeepsInvariant and FinalizedIds say what that
        numbering guarantees). */
    method FinalizeGroups(groups: seq<StagingGroup>) returns (outs: seq<GroupOutput>)
      modifies this
      ensures outs == FinalizedOutputs(old(typeIds), groups, |groups|)
      ensures typeIds == CountersAfter(old(typeIds), groups, |groups|)
      ensures groups != [] ==> currentType == groups[|groups| - 1].resType
      ensures groups == [] ==> currentType == old(currentType)
      ensures lowestStagingFirstId == LowestFirstId(old(lowestStagingFirstId), groups)
    {
      ghost var initial := typeIds;
      ghost var lowest := lowestStagingFirstId;
      ghost var initialType := currentType;
      outs := [];
      var i := 0;
      while i < |groups|
        invariant 0 <= i <= |groups|
        invariant outs == FinalizedOutputs(initial, groups, i)
        invariant typeIds == CountersAfter(initial, groups, i)
        invariant i > 0 ==> currentType == groups[i - 1].resType
        invariant i == 0 ==> currentType == initialType
        invariant lowestStagingFirstId == LowestFirstId(lowest, groups[..i])
      {
        ghost var before := typeIds;
        ghost var lowBefore := lowestStagingFirstId;
        var out := FinalizeGroup(groups[i]);
        FinalizeGroupsStep(initial, groups, i, before, typeIds, outs, out, lowest, lowBefore, lowestStagingFirstId);
        outs := outs + [out];
        i := i + 1;
      }
      assert groups[..i] == groups;
    }

    /** One staging group. Its first-id seeds the type's counter only when
        the type has none yet; its entries are numbered from the counter;
        if it has entries it is renamed and may lower the lowest first-id. */
    method FinalizeGroup(group: StagingGroup) returns (out: GroupOutput)
      modifies this
      ensures currentType == group.resType
      ensures typeIds == old(typeIds)[group.resType := StartingCounter(old(typeIds), group) + |Kept(group.names)|]
      ensures out == GroupResult(group, StartingCounter(old(typeIds), group))
      ensures out.InnerTextOnly? <==> group.names == []
      ensures lowestStagingFirstId
              == if |group.names| > 0 then Min(group.firstId, old(lowestStagingFirstId))
                 else old(lowestStagingFirstId)
    {
      currentType := group.resType;
      if currentType !in typeIds {
        typeIds := typeIds[currentType := group.firstId];
      }
      var decls := FinalizeItems(group.names);
      if |group.names| > 0 {
        out := FinalGroup(group.resType, group.firstId, group.names, decls);
        lowestStagingFirstId := Min(group.firstId, lowestStagingFirstId);
      } else {
        out := InnerTextOnly;
      }
    }
  }

  /** The counter a group's entries start from: the type's counter, or the
      group's first-id when the type has none yet. */
  function StartingCounter(typeIds: map<string, int>, group: StagingGroup): int
  {
    if group.resType in typeIds then typeIds[group.resType] else group.firstId
  }

  lemma MapUpdateTwice(m: map<string, int>, k: string, a: int, b: int)
    ensures m[k := a][k := b] == m[k := b]
  {
    assert m[k := a][k := b].Keys == m[k := b].Keys;
  }

  /** The output of a group whose entries are numbered from `first`. */
  function GroupResult(group: StagingGroup, first: int): GroupOutput
  {
    if |group.names| > 0 then
      var decls := Assigned(group.resType, group.names, first);
      FinalGroup(group.resType, group.firstId, group.names, decls)
    else InnerTextOnly
  }

  /** One step of the loop over a group's entries: whatever the callback
      did with the next name, the declarations so far and the counter
      still match the assignment of the longer prefix. */
  lemma FinalizeItemStep(initial: map<string, int>, t: string, names: seq<string>, i: nat, first: int,
                         decls: seq<PublicEntry>, before: map<string, int>, after: map<string, int>,
                         entry: Option<PublicEntry>)
    requires i < |names|
    requires decls == Assigned(t, names[..i], first) && before == initial[t := first + |decls|]
    requires IsRemovedName(names[i]) ==> entry == None && after == before
    requires !IsRemovedName(names[i]) ==>
               entry == Some(PublicEntry(t, names[i], before[t])) && after == before[t := before[t] + 1]
    ensures entry.None? ==> decls == Assigned(t, names[..i + 1], first) && after == initial[t := first + |decls|]
    ensures entry.Some? ==>
              decls + [entry.value] == Assigned(t, names[..i + 1], first)
              && after == initial[t := first + |decls| + 1]
  {
    AssignedStep(t, names, i, first);
    if !IsRemovedName(names[i]) {
      MapUpdateTwice(initial, t, first + |decls|, first + |decls| + 1);
    }
  }

  /** One more name extends the assignment by at most one declaration. */
  lemma AssignedStep(resType: string, names: seq<string>, i: nat, first: int)
    requires i < |names|
    ensures Assigned(resType, names[..i + 1], first)
            == if IsRemovedName(names[i]) then Assigned(resType, names[..i], first)
               else Assigned(resType, names[..i], first)
                    + [PublicEntry(resType, names[i], first + |Assigned(resType, names[..i], first)|)]
  {
    assert names[..i + 1][..i] == names[..i];
  }

  /** The declarations one output adds. */
  function NewDeclarations(out: GroupOutput): seq<PublicEntry>
  {
    if out.FinalGroup? then out.declarations else []
  }

  /** The declarations of a run of outputs, in order. */
  function Declarations(outs: seq<GroupOutput>): seq<PublicEntry>
  {
    if outs == [] then []
    else Declarations(outs[..|outs| - 1]) + NewDeclarations(outs[|outs| - 1])
  }

  lemma DeclarationsAppend(outs: seq<GroupOutput>, out: GroupOutput)
    ensures Declarations(outs + [out]) == Declarations(outs) + NewDeclarations(out)
  {
    assert (outs + [out])[..|outs|] == outs;
  }

  /** What keeps the IDs apart: every counter lies above the finalised IDs
      and the new IDs of its type, new IDs lie above the finalised IDs of
      their type, and the new IDs of one type increase in output order. */
  ghost predicate AllocatorInvariant(typeIds: map<string, int>, existing: seq<PublicEntry>, decls: seq<PublicEntry>)
  {
    (forall e :: e in existing ==> e.resType in typeIds && typeIds[e.resType] > e.id)
    && (forall d :: d in decls ==> d.resType in typeIds && d.id < typeIds[d.resType])
    && (forall d, e :: d in decls && e in existing && d.resType == e.resType ==> d.id > e.id)
    && (forall a, b :: 0 <= a < b < |decls| && decls[a].resType == decls[b].resType ==> decls[a].id < decls[b].id)
  }

  /** Collecting the finalised IDs establishes the invariant. */
  lemma CollectEstablishesInvariant(existing: seq<PublicEntry>)
    ensures AllocatorInvariant(CollectedIds(map[], existing), existing, [])
  {
    CollectedIdsBounds(map[], existing);
    forall e | e in existing
      ensures e.resType in CollectedIds(map[], existing) && CollectedIds(map[], existing)[e.resType] > e.id
    {
      var i :| 0 <= i < |existing| && existing[i] == e;
    }
  }

  /** A group's new declarations all have the group's type and take the
      IDs first, first + 1, ..., one per kept name. */
  lemma GroupDeclarationsConsecutive(g: StagingGroup, first: int)
    ensures |NewDeclarations(GroupResult(g, first))| == |Kept(g.names)|
    ensures forall j :: 0 <= j < |NewDeclarations(GroupResult(g, first))| ==>
              NewDeclarations(GroupResult(g, first))[j].resType == g.resType
              && NewDeclarations(GroupResult(g, first))[j].id == first + j
  {
    AssignedConsecutive(g.resType, g.names, first);
    if |g.names| == 0 {
      assert g.names == [];
    }
  }

  /** A run of IDs first, first + 1, ... of one type, counted from that
      type's counter (or from anywhere when the type has no counter), keeps
      the invariant once the counter moves past the run. */
  lemma AppendRunKeepsInvariant(typeIds: map<string, int>, existing: seq<PublicEntry>,
                                prev: seq<PublicEntry>, added: seq<PublicEntry>, t: string, first: int)
    requires AllocatorInvariant(typeIds, existing, prev)
    requires t in typeIds ==> first == typeIds[t]
    requires forall j :: 0 <= j < |added| ==> added[j].resType == t && added[j].id == first + j
    ensures AllocatorInvariant(typeIds[t := first + |added|], existing, prev + added)
  {
    var after := typeIds[t := first + |added|];
    RunStaysBelowCounter(typeIds, existing, prev, added, t, first);
    RunAboveFinalised(typeIds, existing, prev, added, t, first);
    RunIncreases(typeIds, existing, prev, added, t, first);
  }

  lemma RunStaysBelowCounter(typeIds: map<string, int>, existing: seq<PublicEntry>,
                             prev: seq<PublicEntry>, added: seq<PublicEntry>, t: string, first: int)
    requires AllocatorInvariant(typeIds, existing, prev)
    requires t in typeIds ==> first == typeIds[t]
    requires forall j :: 0 <= j < |added| ==> added[j].resType == t && added[j].id == first + j
    ensures forall e :: e in existing ==>
              e.resType in typeIds[t := first + |added|] && typeIds[t := first + |added|][e.resType] > e.id
    ensures forall d :: d in prev + added ==>
              d.resType in typeIds[t := first + |added|] && d.id < typeIds[t := first + |added|][d.resType]
  {
    forall d | d in prev + added
      ensures d.resType in typeIds[t := first + |added|] && d.id < typeIds[t := first + |added|][d.resType]
    {
      if d !in prev {
        var j :| 0 <= j < |added| && added[j] == d;
      }
    }
  }

  lemma RunAboveFinalised(typeIds: map<string, int>, existing: seq<PublicEntry>,
                          prev: seq<PublicEntry>, added: seq<PublicEntry>, t: string, first: int)
    requires AllocatorInvariant(typeIds, existing, prev)
    requires t in typeIds ==> first == typeIds[t]
    requires forall j :: 0 <= j < |added| ==> added[j].resType == t && added[j].id == first + j
    ensures forall d, e :: d in prev + added && e in existing && d.resType == e.resType ==> d.id > e.id
  {
    forall d, e | d in prev + added && e in existing && d.resType == e.resType
      ensures d.id > e.id
    {
      if d !in prev {
        var j :| 0 <= j < |added| && added[j] == d;
      }
    }
  }

  lemma RunIncreases(typeIds: map<string, int>, existing: seq<PublicEntry>,
                     prev: seq<PublicEntry>, added: seq<PublicEntry>, t: string, first: int)
    requires AllocatorInvariant(typeIds, existing, prev)
    requires t in typeIds ==> first == typeIds[t]
    requires forall j :: 0 <= j < |added| ==> added[j].resType == t && added[j].id == first + j
    ensures forall a, b :: 0 <= a < b < |prev + added| && (prev + added)[a].resType == (prev + added)[b].resType
              ==> (prev + added)[a].id < (prev + added)[b].id
  {
    var all := prev + added;
    forall a, b | 0 <= a < b < |all| && all[a].resType == all[b].resType
      ensures all[a].id < all[b].id
    {
      if b >= |prev| {
        assert all[b] == added[b - |prev|];
        if a < |prev| {
          assert all[a] in prev;
        } else {
          assert all[a] == added[a - |prev|];
        }
      }
    }
  }

  /** Finalising one group keeps the invariant: its declarations are
      numbered from the type's counter, which lies above every ID of that
      type handed out or finalised before. */
  lemma FinalizeGroupKeepsInvariant(typeIds: map<string, int>, existing: seq<PublicEntry>,
                                    prev: seq<PublicEntry>, g: StagingGroup)
    requires AllocatorInvariant(typeIds, existing, prev)
    ensures AllocatorInvariant(typeIds[g.resType := StartingCounter(typeIds, g) + |Kept(g.names)|],
                               existing, prev + NewDeclarations(GroupResult(g, StartingCounter(typeIds, g))))
  {
    var first := StartingCounter(typeIds, g);
    GroupDeclarationsConsecutive(g, first);
    AppendRunKeepsInvariant(typeIds, existing, prev, NewDeclarations(GroupResult(g, first)), g.resType, first);
  }

  // ---------------------------------------------------------------------
  // Which IDs the names receive
  // ---------------------------------------------------------------------

  /** The counters after finalising groups 0 .. n - 1 in order: each group
      moves its type's counter one past the IDs its kept names took. */
  function CountersAfter(m: map<string, int>, groups: seq<StagingGroup>, n: nat): map<string, int>
    requires n <= |groups|
  {
    if n == 0 then m
    else
      var earlier := CountersAfter(m, groups, n - 1);
      var g := groups[n - 1];
      earlier[g.resType := StartingCounter(earlier, g) + |Kept(g.names)|]
  }

  /** The outputs of groups 0 .. n - 1 in order, each group's names
      numbered from the counter its type has after the groups before it. */
  function FinalizedOutputs(m: map<string, int>, groups: seq<StagingGroup>, n: nat): (outs: seq<GroupOutput>)
    requires n <= |groups|
    ensures |outs| == n
  {
    if n == 0 then []
    else
      var g := groups[n - 1];
      FinalizedOutputs(m, groups, n - 1) + [GroupResult(g, StartingCounter(CountersAfter(m, groups, n - 1), g))]
  }

  /** How many names of type t groups 0 .. n - 1 keep. */
  function KeptOfType(groups: seq<StagingGroup>, n: nat, t: string): (k: nat)
    requires n <= |groups|
    ensures (forall i :: 0 <= i < n ==> groups[i].resType != t) ==> k == 0
  {
    if n == 0 then 0
    else
      var g := groups[n - 1];
      KeptOfType(groups, n - 1, t) + (if g.resType == t then |Kept(g.names)| else 0)
  }

  /** Some finalised entry has type t. */
  predicate HasFinalised(existing: seq<PublicEntry>, t: string)
  {
    exists i :: 0 <= i < |existing| && existing[i].resType == t
  }

  /** One past the largest finalised ID of type t, and never below 0: the
      first ID still free for that type. */
  function NextId(existing: seq<PublicEntry>, t: string): (n: int)
    ensures n >= 0
    ensures forall i :: 0 <= i < |existing| && existing[i].resType == t ==> existing[i].id < n
    ensures n == 0 || exists i :: 0 <= i < |existing| && existing[i].resType == t && n == existing[i].id + 1
  {
    if existing == [] then 0
    else
      var pre := existing[..|existing| - 1];
      var e := existing[|existing| - 1];
      var n := NextId(pre, t);
      assert forall i :: 0 <= i < |pre| ==> pre[i] == existing[i];
      if e.resType == t then Max(e.id + 1, n) else n
  }

  /** The index of the first group of type t. */
  function FirstOfType(groups: seq<StagingGroup>, t: string): (f: nat)
    requires exists i :: 0 <= i < |groups| && groups[i].resType == t
    ensures f < |groups| && groups[f].resType == t
    ensures forall i :: 0 <= i < f ==> groups[i].resType != t
    decreases |groups|
  {
    if groups[0].resType == t then 0
    else
      var i :| 0 <= i < |groups| && groups[i].resType == t;
      assert groups[1..][i - 1] == groups[i];
      1 + FirstOfType(groups[1..], t)
  }

  /** The ID the first kept name of group i takes: the first free ID of
      its type (the first-id of the type's first group when no entry of
      that type is finalised), plus the names of that type kept by the
      groups before it. */
  function RunStart(existing: seq<PublicEntry>, groups: seq<StagingGroup>, i: nat): int
    requires i < |groups|
  {
    var t := groups[i].resType;
    assert groups[i].resType == t;
    (if HasFinalised(existing, t) then NextId(existing, t) else groups[FirstOfType(groups, t)].firstId)
    + KeptOfType(groups, i, t)
  }

  /** Collecting from nothing gives each finalised type its first free
      ID, and gives no other type a counter. */
  lemma {:induction false} CollectedIdsNextId(existing: seq<PublicEntry>, t: string)
    ensures t in CollectedIds(map[], existing) <==> HasFinalised(existing, t)
    ensures t in CollectedIds(map[], existing) ==> CollectedIds(map[], existing)[t] == NextId(existing, t)
  {
    if existing != [] {
      var pre := existing[..|existing| - 1];
      CollectedIdsNextId(pre, t);
      assert forall i :: 0 <= i < |pre| ==> pre[i] == existing[i];
      if HasFinalised(existing, t) && existing[|existing| - 1].resType != t {
        var i :| 0 <= i < |existing| && existing[i].resType == t;
        assert pre[i].resType == t;
      }
    }
  }

  /** A counter after groups 0 .. n - 1: a type counted before keeps its
      counter plus the names of that type the groups kept; a new type
      starts at the first-id of its first group. */
  lemma {:induction false} CountersAfterValue(m: map<string, int>, groups: seq<StagingGroup>, n: nat, t: string)
    requires n <= |groups|
    ensures t in CountersAfter(m, groups, n) <==> t in m || exists i :: 0 <= i < n && groups[i].resType == t
    ensures t in m ==> CountersAfter(m, groups, n)[t] == m[t] + KeptOfType(groups, n, t)
    ensures t !in m && (exists i :: 0 <= i < n && groups[i].resType == t) ==>
              CountersAfter(m, groups, n)[t] == groups[FirstOfType(groups, t)].firstId + KeptOfType(groups, n, t)
  {
    if n > 0 {
      CountersAfterValue(m, groups, n - 1, t);
      if t !in m && groups[n - 1].resType == t && !exists i :: 0 <= i < n - 1 && groups[i].resType == t {
        assert FirstOfType(groups, t) == n - 1;
      }
    }
  }

  /** The counter group i starts from is RunStart: what the script does
      agrees with the ID the group's first kept name should take. */
  lemma RunStartMatches(existing: seq<PublicEntry>, groups: seq<StagingGroup>, i: nat)
    requires i < |groups|
    ensures StartingCounter(CountersAfter(CollectedIds(map[], existing), groups, i), groups[i])
            == RunStart(existing, groups, i)
  {
    var t := groups[i].resType;
    CollectedIdsNextId(existing, t);
    CountersAfterValue(CollectedIds(map[], existing), groups, i, t);
    if !HasFinalised(existing, t) && !exists j :: 0 <= j < i && groups[j].resType == t {
      assert FirstOfType(groups, t) == i;
    }
  }

  /** Group i's output is its result numbered from the counter its type
      has after groups 0 .. i - 1; only a group with entries is renamed. */
  lemma {:induction false} FinalizedOutputsAt(m: map<string, int>, groups: seq<StagingGroup>, n: nat)
    requires n <= |groups|
    ensures forall i {:trigger FinalizedOutputs(m, groups, n)[i]} :: 0 <= i < n ==>
              FinalizedOutputs(m, groups, n)[i]
              == GroupResult(groups[i], StartingCounter(CountersAfter(m, groups, i), groups[i]))
    ensures forall i {:trigger FinalizedOutputs(m, groups, n)[i]} :: 0 <= i < n ==>
              (FinalizedOutputs(m, groups, n)[i].InnerTextOnly? <==> groups[i].names == [])
  {
    if n > 0 {
      FinalizedOutputsAt(m, groups, n - 1);
      forall i | 0 <= i < n
        ensures FinalizedOutputs(m, groups, n)[i].InnerTextOnly? <==> groups[i].names == []
      {
        var o := GroupResult(groups[i], StartingCounter(CountersAfter(m, groups, i), groups[i]));
        assert o.InnerTextOnly? <==> |groups[i].names| == 0;
      }
    }
  }

  /** Finalising the groups one by one keeps the allocator invariant. */
  lemma {:induction false} FinalizedKeepsInvariant(m: map<string, int>, existing: seq<PublicEntry>,
                                                   groups: seq<StagingGroup>, n: nat)
    requires n <= |groups| && AllocatorInvariant(m, existing, [])
    ensures AllocatorInvariant(CountersAfter(m, groups, n), existing, Declarations(FinalizedOutputs(m, groups, n)))
  {
    if n > 0 {
      FinalizedKeepsInvariant(m, existing, groups, n - 1);
      FinalizedKeepsInvariantStep(m, existing, groups, n);
    }
  }

  lemma FinalizedKeepsInvariantStep(m: map<string, int>, existing: seq<PublicEntry>,
                                    groups: seq<StagingGroup>, n: nat)
    requires 0 < n <= |groups|
    requires AllocatorInvariant(CountersAfter(m, groups, n - 1), existing, Declarations(FinalizedOutputs(m, groups, n - 1)))
    ensures AllocatorInvariant(CountersAfter(m, groups, n), existing, Declarations(FinalizedOutputs(m, groups, n)))
  {
    var g := groups[n - 1];
    var counters := CountersAfter(m, groups, n - 1);
    var outs := FinalizedOutputs(m, groups, n - 1);
    var out := GroupResult(g, StartingCounter(counters, g));
    assert FinalizedOutputs(m, groups, n) == outs + [out];
    assert CountersAfter(m, groups, n) == counters[g.resType := StartingCounter(counters, g) + |Kept(g.names)|];
    DeclarationsAppend(outs, out);
    FinalizeGroupKeepsInvariant(counters, existing, Declarations(outs), g);
  }

  /** Over a whole run: a new ID never repeats a finalised ID of its
      type, nor another new ID of its type. */
  lemma FinalizedIdsFresh(existing: seq<PublicEntry>, groups: seq<StagingGroup>)
    ensures forall d, e ::
              d in Declarations(FinalizedOutputs(CollectedIds(map[], existing), groups, |groups|))
              && e in existing && d.resType == e.resType
              ==> d.id > e.id
    ensures forall a, b ::
              var decls := Declarations(FinalizedOutputs(CollectedIds(map[], existing), groups, |groups|));
              0 <= a < b < |decls| && decls[a].resType == decls[b].resType ==> decls[a].id < decls[b].id
  {
    CollectEstablishesInvariant(existing);
    FinalizedKeepsInvariant(CollectedIds(map[], existing), existing, groups, |groups|);
  }

  /** One step of the loop over the groups: finalising the next group
      extends the outputs, the counters and the lowest first-id to those of
      the longer prefix. */
  lemma FinalizeGroupsStep(m: map<string, int>, groups: seq<StagingGroup>, i: nat,
                           before: map<string, int>, after: map<string, int>,
                           outs: seq<GroupOutput>, out: GroupOutput,
                           lowest: int, lowBefore: int, lowAfter: int)
    requires i < |groups|
    requires before == CountersAfter(m, groups, i) && outs == FinalizedOutputs(m, groups, i)
    requires after == before[groups[i].resType := StartingCounter(before, groups[i]) + |Kept(groups[i].names)|]
    requires out == GroupResult(groups[i], StartingCounter(before, groups[i]))
    requires lowBefore == LowestFirstId(lowest, groups[..i])
    requires lowAfter == if |groups[i].names| > 0 then Min(groups[i].firstId, lowBefore) else lowBefore
    ensures after == CountersAfter(m, groups, i + 1)
    ensures outs + [out] == FinalizedOutputs(m, groups, i + 1)
    ensures lowAfter == LowestFirstId(lowest, groups[..i + 1])
  {
    LowestFirstIdStep(lowest, groups, i);
  }

  /** Over a whole run: group i is numbered from RunStart, so the j-th
      name it keeps takes RunStart + j; a group without entries adds none. */
  lemma FinalizedIds(existing: seq<PublicEntry>, groups: seq<StagingGroup>)
    ensures forall i :: 0 <= i < |groups| ==>
              FinalizedOutputs(CollectedIds(map[], existing), groups, |groups|)[i]
              == GroupResult(groups[i], RunStart(existing, groups, i))
    ensures forall i :: 0 <= i < |groups| ==>
              (FinalizedOutputs(CollectedIds(map[], existing), groups, |groups|)[i].InnerTextOnly?
               <==> groups[i].names == [])
    ensures forall i :: 0 <= i < |groups| ==>
              |NewDeclarations(GroupResult(groups[i], RunStart(existing, groups, i)))| == |Kept(groups[i].names)|
    ensures forall i, j :: 0 <= i < |groups| && 0 <= j < |Kept(groups[i].names)| ==>
              NewDeclarations(GroupResult(groups[i], RunStart(existing, groups, i)))[j]
              == PublicEntry(groups[i].resType, Kept(groups[i].names)[j], RunStart(existing, groups, i) + j)
  {
    FinalizedOutputsAt(CollectedIds(map[], existing), groups, |groups|);
    forall i | 0 <= i < |groups|
      ensures FinalizedOutputs(CollectedIds(map[], existing), groups, |groups|)[i]
              == GroupResult(groups[i], RunStart(existing, groups, i))
      ensures |NewDeclarations(GroupResult(groups[i], RunStart(existing, groups, i)))| == |Kept(groups[i].names)|
      ensures forall j :: 0 <= j < |Kept(groups[i].names)| ==>
                NewDeclarations(GroupResult(groups[i], RunStart(existing, groups, i)))[j]
                == PublicEntry(groups[i].resType, Kept(groups[i].names)[j], RunStart(existing, groups, i) + j)
    {
      RunStartMatches(existing, groups, i);
      AssignedConsecutive(groups[i].resType, groups[i].names, RunStart(existing, groups, i));
      GroupDeclarationsConsecutive(groups[i], RunStart(existing, groups, i));
    }
  }

  /** The next release's groups: one empty group per resource type, in
      order, the k-th at lowest - 0x10000 * (k + 1). */
  method SeedNextReleaseGroups(lowestStagingFirstId: int) returns (seeds: seq<StagingGroup>)
    ensures |seeds| == |ResTypes|
    ensures forall k :: 0 <= k < |seeds| ==>
              seeds[k] == StagingGroup(ResTypes[k], lowestStagingFirstId - FIRST_ID_STEP * (k + 1), [])
  {
    var nextId := lowestStagingFirstId - FIRST_ID_STEP;
    seeds := [];
    for k := 0 to |ResTypes|
      invariant |seeds| == k
      invariant nextId == lowestStagingFirstId - FIRST_ID_STEP * (k + 1)
      invariant forall j :: 0 <= j < k ==>
                  seeds[j] == StagingGroup(ResTypes[j], lowestStagingFirstId - FIRST_ID_STEP * (j + 1), [])
    {
      seeds := seeds + [StagingGroup(ResTypes[k], nextId, [])];
      nextId := nextId - FIRST_ID_STEP;
    }
  }

  /** The text written for one seeded group. */
  function SeedGroupText(g: StagingGroup): string
  {
    "  <staging-public-group type=\"" + g.resType + "\" first-id=\"" + FormatHexId(g.firstId) + "\">\n"
    + "  </staging-public-group>\n\n"
  }

  /** The whole run over already parsed input: collect the finalised IDs,
      finalise every staging group in order, then seed the next release. */
  method FinalizeResources(existing: seq<PublicEntry>, groups: seq<StagingGroup>)
    returns (outs: seq<GroupOutput>, seeds: seq<StagingGroup>)
    ensures |outs| == |groups|
    ensures forall i :: 0 <= i < |groups| ==> (outs[i].InnerTextOnly? <==> groups[i].names == [])
    // group i is numbered from RunStart: the first free ID of its type plus
    // the names of that type kept by the groups before it
    ensures forall i :: 0 <= i < |groups| ==> outs[i] == GroupResult(groups[i], RunStart(existing, groups, i))
    ensures forall i :: 0 <= i < |groups| ==> |NewDeclarations(outs[i])| == |Kept(groups[i].names)|
    ensures forall i, j :: 0 <= i < |groups| && 0 <= j < |Kept(groups[i].names)| ==>
              NewDeclarations(outs[i])[j]
              == PublicEntry(groups[i].resType, Kept(groups[i].names)[j], RunStart(existing, groups, i) + j)
    // a new ID never repeats a finalised ID of its type, nor another new one
    ensures forall d, e :: d in Declarations(outs) && e in existing && d.resType == e.resType ==> d.id > e.id
    ensures forall a, b :: 0 <= a < b < |Declarations(outs)|
              && Declarations(outs)[a].resType == Declarations(outs)[b].resType
              ==> Declarations(outs)[a].id < Declarations(outs)[b].id
    // the seeded groups sit below every non-empty group and below the start value
    ensures |seeds| == |ResTypes|
    ensures forall k :: 0 <= k < |seeds| ==> seeds[k].resType == ResTypes[k] && seeds[k].names == []
    ensures forall k :: 0 <= k < |seeds| ==>
              seeds[k].firstId == LowestFirstId(INITIAL_LOWEST_STAGING_FIRST_ID, groups) - FIRST_ID_STEP * (k + 1)
    ensures forall k :: 0 <= k < |seeds| ==> seeds[k].firstId < INITIAL_LOWEST_STAGING_FIRST_ID
    ensures forall k, i :: 0 <= k < |seeds| && 0 <= i < |groups| && |groups[i].names| > 0 ==>
              seeds[k].firstId < groups[i].firstId
  {
    var f := new Finalizer();
    f.CollectIds(existing);
    outs := f.FinalizeGroups(groups);
    assert outs == FinalizedOutputs(CollectedIds(map[], existing), groups, |groups|);
    FinalizedIds(existing, groups);
    FinalizedIdsFresh(existing, groups);
    LowestFirstIdBounds(INITIAL_LOWEST_STAGING_FIRST_ID, groups);
    seeds := SeedNextReleaseGroups(f.lowestStagingFirstId);
  }
}
