/**
 * The display enumerator: the text of `xrandr --verbose`, cut into one block of
 * lines per output, the header line of each block read as `<name> connected
 * ... WxH+X+Y ...`, and the EDID hex dump of a block put back together.
 */
module Xrandr {
  import opened Wrappers
  import opened Seqs
  import opened Text

  // ---------------------------------------------------------------------------
  // Blocks: a line that is not indented opens a block, an indented line joins
  // the latest one.

  /** A well-formed block: one header line that is not indented, then indented lines. */
  predicate IsBlock(b: seq<string>)
  {
    b != [] && !IsIndented(b[0]) && forall j :: 1 <= j < |b| ==> IsIndented(b[j])
  }

  /** bs cuts lines, in order and without loss, into well-formed blocks. */
  ghost predicate IsPartition(bs: seq<seq<string>>, lines: seq<string>)
  {
    Flatten(bs) == lines && forall k :: 0 <= k < |bs| ==> IsBlock(bs[k])
  }

  /**
   * The blocks the loop builds from lines, one line at a time: a line that is
   * not indented first opens an empty block, then the line is added to the
   * latest block, which fails when there is none yet.
   */
  function Blocks(lines: seq<string>): Result<seq<seq<string>>>
    decreases |lines|
  {
    if lines == [] then Ok([])
    else
      match Blocks(lines[..|lines| - 1])
      case Err(e) => Err(e)
      case Ok(bs) =>
        var line := lines[|lines| - 1];
        var grown := if !IsIndented(line) then bs + [[]] else bs;
        if grown == [] then Err(IndentedBeforeHeader)
        else Ok(grown[..|grown| - 1] + [grown[|grown| - 1] + [line]])
  }

  /** The partition loop over the lines that follow the first one of the output. */
  method SplitBlocks(lines: seq<string>) returns (r: Result<seq<seq<string>>>)
    ensures r == Blocks(lines)
  {
    var monitors: seq<seq<string>> := [];
    for i := 0 to |lines|
      invariant Blocks(lines[..i]) == Ok(monitors)
    {
      var line := lines[i];
      assert lines[..i + 1][..i] == lines[..i];
      if !IsIndented(line) {
        monitors := monitors + [[]];
      }
      if monitors == [] {
        BlocksErrExtends(lines, i + 1);
        return Err(IndentedBeforeHeader);
      }
      monitors := monitors[..|monitors| - 1] + [monitors[|monitors| - 1] + [line]];
    }
    assert lines[..|lines|] == lines;
    return Ok(monitors);
  }

  /** Once a prefix of the lines fails, the whole does. */
  lemma {:induction false} BlocksErrExtends(lines: seq<string>, i: nat)
    requires i <= |lines| && Blocks(lines[..i]).Err?
    ensures Blocks(lines) == Blocks(lines[..i])
    decreases |lines|
  {
    if i < |lines| {
      var pre := lines[..|lines| - 1];
      assert pre[..i] == lines[..i];
      BlocksErrExtends(pre, i);
    } else {
      assert lines[..i] == lines;
    }
  }

  /**
   * Partitioning fails exactly when the first line is indented; otherwise it
   * cuts the lines into well-formed blocks.
   */
  lemma {:induction false} BlocksPartition(lines: seq<string>)
    ensures Blocks(lines).Err? <==> lines != [] && IsIndented(lines[0])
    ensures Blocks(lines).Err? ==> Blocks(lines).error == IndentedBeforeHeader
    ensures Blocks(lines).Ok? ==> IsPartition(Blocks(lines).value, lines)
    decreases |lines|
  {
    if lines != [] {
      var pre := lines[..|lines| - 1];
      var line := lines[|lines| - 1];
      BlocksPartition(pre);
      assert pre != [] ==> pre[0] == lines[0];
      if Blocks(pre).Ok? {
        var bs := Blocks(pre).value;
        assert lines == pre + [line];
        if !IsIndented(line) {
          BlocksOpen(pre, line, bs);
        } else if bs == [] {
          assert pre == [];
        } else {
          BlocksGrow(pre, line, bs);
        }
      }
    }
  }

  /** A line that is not indented opens a new block of its own. */
  lemma BlocksOpen(pre: seq<string>, line: string, bs: seq<seq<string>>)
    requires !IsIndented(line) && Blocks(pre) == Ok(bs) && IsPartition(bs, pre)
    ensures Blocks(pre + [line]) == Ok(bs + [[line]]) && IsPartition(bs + [[line]], pre + [line])
  {
    assert Blocks(pre + [line]) == Ok(bs + [[line]]) by {
      assert (pre + [line])[..|pre|] == pre;
      var grown := bs + [[]];
      assert grown[..|grown| - 1] == bs;
      assert grown[|grown| - 1] + [line] == [line];
    }
    assert Flatten(bs + [[line]]) == pre + [line] by {
      FlattenSnoc(bs, [line]);
    }
    forall k | 0 <= k < |bs| + 1 ensures IsBlock((bs + [[line]])[k]) {
      if k == |bs| {
        assert (bs + [[line]])[k] == [line];
      }
    }
  }

  /** An indented line joins the latest block. */
  lemma BlocksGrow(pre: seq<string>, line: string, bs: seq<seq<string>>)
    requires IsIndented(line) && bs != [] && Blocks(pre) == Ok(bs) && IsPartition(bs, pre)
    ensures Blocks(pre + [line]) == Ok(bs[..|bs| - 1] + [bs[|bs| - 1] + [line]])
    ensures IsPartition(bs[..|bs| - 1] + [bs[|bs| - 1] + [line]], pre + [line])
  {
    var init, last := bs[..|bs| - 1], bs[|bs| - 1];
    assert Blocks(pre + [line]) == Ok(init + [last + [line]]) by {
      assert (pre + [line])[..|pre|] == pre;
    }
    assert Flatten(init + [last + [line]]) == pre + [line] by {
      assert bs == init + [last];
      FlattenSnoc(init, last);
      FlattenSnoc(init, last + [line]);
    }
    forall k | 0 <= k < |bs| ensures IsBlock((init + [last + [line]])[k]) {
      if k < |init| {
        assert (init + [last + [line]])[k] == bs[k];
      } else {
        assert IsBlock(bs[k]);
        assert (init + [last + [line]])[k] == last + [line];
      }
    }
  }

  /** What a partition says about its first block. */
  lemma HeadOfPartition(bs: seq<seq<string>>, lines: seq<string>)
    requires IsPartition(bs, lines) && bs != []
    ensures |bs[0]| <= |lines| && lines[..|bs[0]|] == bs[0]
    ensures IsPartition(bs[1..], lines[|bs[0]|..])
    ensures |bs[0]| < |lines| ==> !IsIndented(lines[|bs[0]|])
  {
    assert lines == bs[0] + Flatten(bs[1..]);
    if |bs| > 1 {
      assert Flatten(bs[1..]) == bs[1] + Flatten(bs[2..]);
    }
  }

  /** There is only one way to cut lines into well-formed blocks. */
  lemma {:induction false} PartitionUnique(bs1: seq<seq<string>>, bs2: seq<seq<string>>, lines: seq<string>)
    requires IsPartition(bs1, lines) && IsPartition(bs2, lines)
    ensures bs1 == bs2
    decreases |lines|
  {
    if bs1 != [] && bs2 != [] {
      HeadOfPartition(bs1, lines);
      HeadOfPartition(bs2, lines);
      var n1 := |bs1[0]|;
      assert n1 == |bs2[0]|;
      PartitionUnique(bs1[1..], bs2[1..], lines[n1..]);
      assert bs1 == [bs1[0]] + bs1[1..] && bs2 == [bs2[0]] + bs2[1..];
    }
  }

  // ---------------------------------------------------------------------------
  // Header line: `^([\w-]*) connected.* (\d+)x(\d+)\+(\d+)\+(\d+) .*$`.

  /** A display's rectangle on the screen: size, then the offset of its top left corner. */
  datatype Rect = Rect(xlen: nat, ylen: nat, x0: nat, y0: nat)

  datatype Header = Header(name: string, rect: Rect)

  const Connected := " connected"

  /** The literals that follow the four `\d+` of a geometry: `x`, `+`, `+` and a space. */
  const GeometrySeparators := "x++ "

  /**
   * `\d+` before each separator of seps in turn, from i on: the values of the
   * numerals, if the text there has that shape. No separator is a digit, so
   * each `\d+` can only match the longest run of digits.
   */
  function Numerals(line: string, i: nat, seps: string): (r: Option<seq<nat>>)
    requires i <= |line|
    ensures r.Some? ==> |r.value| == |seps|
    decreases |seps|
  {
    if seps == [] then Some([])
    else
      var j := DigitsEnd(line, i);
      if i < j < |line| && line[j] == seps[0] then
        match Numerals(line, j + 1, seps[1..])
        case None => None
        case Some(vs) => Some([DecimalValue(line[i..j])] + vs)
      else None
  }

  /** The rectangle written ` WxH+X+Y ` with its leading space at p, if it is. */
  function GeometryAt(line: string, p: nat): Option<Rect>
  {
    if p < |line| && line[p] == ' ' then
      match Numerals(line, p + 1, GeometrySeparators)
      case None => None
      case Some(vs) => Some(Rect(vs[0], vs[1], vs[2], vs[3]))
    else None
  }

  /** A numeral as `\d+` matches it: one digit or more. */
  predicate IsNumeral(w: string)
  {
    w != [] && AllDigits(w)
  }

  /** The numerals ws, each followed by its separator. */
  function NumeralsText(ws: seq<string>, seps: string): string
    requires |ws| == |seps|
  {
    if ws == [] then [] else ws[0] + [seps[0]] + NumeralsText(ws[1..], seps[1..])
  }

  /** The numerals of the rectangle r, as xrandr writes them. */
  function GeometryNumerals(r: Rect): seq<string>
  {
    [DecimalString(r.xlen), DecimalString(r.ylen), DecimalString(r.x0), DecimalString(r.y0)]
  }

  /** The rectangle r as xrandr writes it: ` WxH+X+Y `. */
  function GeometryText(r: Rect): string
  {
    " " + NumeralsText(GeometryNumerals(r), GeometrySeparators)
  }

  /** Numerals written with separators that are not digits are read back as their values vs. */
  lemma {:induction false} NumeralsOfText(s: string, i: nat, ws: seq<string>, seps: string, vs: seq<nat>)
    requires |ws| == |seps| == |vs| && i <= |s|
    requires forall k :: 0 <= k < |ws| ==> ws[k] != [] && AllDigits(ws[k]) && !IsDigit(seps[k])
    requires forall k :: 0 <= k < |ws| ==> AllDigits(ws[k]) && vs[k] == DecimalValue(ws[k])
    requires HasAt(s, i, NumeralsText(ws, seps))
    ensures Numerals(s, i, seps) == Some(vs)
    decreases |seps|
  {
    if ws != [] {
      var w := ws[0] + [seps[0]];
      var rest := NumeralsText(ws[1..], seps[1..]);
      assert Numerals(s, i + |w|, seps[1..]) == Some(vs[1..]) by {
        HasAtSkip(s, i, w, rest);
        assert forall k :: 0 <= k < |ws| - 1 ==> ws[1..][k] == ws[k + 1] && seps[1..][k] == seps[k + 1] && vs[1..][k] == vs[k + 1];
        NumeralsOfText(s, i + |w|, ws[1..], seps[1..], vs[1..]);
      }
      NumeralsCons(s, i, ws[0], seps[0], rest, seps[1..], vs[1..]);
      assert [seps[0]] + seps[1..] == seps;
      assert [vs[0]] + vs[1..] == vs;
    }
  }

  /** Numerals reads one more numeral and separator written ahead of the ones it reads. */
  lemma NumeralsCons(s: string, i: nat, w: string, c: char, rest: string, seps: string, vs: seq<nat>)
    requires IsNumeral(w) && !IsDigit(c) && HasAt(s, i, w + [c] + rest)
    requires i + |w| + 1 <= |s|
    requires Numerals(s, i + |w| + 1, seps) == Some(vs)
    ensures Numerals(s, i, [c] + seps) == Some([DecimalValue(w)] + vs)
  {
    var j := NumeralAt(s, i, w, c, rest);
    assert ([c] + seps)[1..] == seps;
    NumeralsStep(s, i, [c] + seps, j, vs);
  }

  /** A numeral w followed by a separator c that is not a digit, at i: where c stands. */
  lemma NumeralAt(s: string, i: nat, w: string, c: char, rest: string) returns (j: nat)
    requires IsNumeral(w) && !IsDigit(c) && HasAt(s, i, w + [c] + rest)
    ensures j == i + |w| && i < j < |s| && s[j] == c
    ensures DigitsEnd(s, i) == j && s[i..j] == w
    ensures HasAt(s, j + 1, rest)
  {
    assert w + [c] + rest == [] + w + ([c] + rest);
    RecordAt(s, i, [], w, [c] + rest);
    j := i + |w|;
    HasAtCons(s, j, c, rest);
  }

  /** One numeral and its separator at i, ahead of what Numerals reads after them. */
  lemma NumeralsStep(s: string, i: nat, seps: string, j: nat, vs: seq<nat>)
    requires seps != [] && i < j < |s| && s[j] == seps[0] && DigitsEnd(s, i) == j
    requires Numerals(s, j + 1, seps[1..]) == Some(vs)
    ensures Numerals(s, i, seps) == Some([DecimalValue(s[i..j])] + vs)
  {
  }

  /** Numerals written with separators: only the last separator can be a space, when the others are not. */
  lemma {:induction false} NumeralsTextSpaces(ws: seq<string>, seps: string)
    requires |ws| == |seps|
    requires forall k :: 0 <= k < |ws| ==> AllDigits(ws[k])
    requires forall k :: 0 <= k < |seps| - 1 ==> seps[k] != ' '
    ensures forall q :: 0 <= q < |NumeralsText(ws, seps)| - 1 ==> NumeralsText(ws, seps)[q] != ' '
    decreases |seps|
  {
    if ws != [] {
      var rest := NumeralsText(ws[1..], seps[1..]);
      assert forall k :: 0 <= k < |ws| - 1 ==> ws[1..][k] == ws[k + 1] && seps[1..][k] == seps[k + 1];
      NumeralsTextSpaces(ws[1..], seps[1..]);
      var t := NumeralsText(ws, seps);
      forall q | 0 <= q < |t| - 1 ensures t[q] != ' ' {
        if q < |ws[0]| {
          assert t[q] == ws[0][q];
        } else if q == |ws[0]| {
          assert t[q] == seps[0];
        } else {
          assert t[q] == rest[q - |ws[0]| - 1];
        }
      }
    }
  }

  /** A rectangle written at p is read back there. */
  lemma GeometryOfText(s: string, p: nat, r: Rect)
    requires HasAt(s, p, GeometryText(r))
    ensures GeometryAt(s, p) == Some(r)
  {
    var ws := GeometryNumerals(r);
    HasAtCons(s, p, ' ', NumeralsText(ws, GeometrySeparators));
    DecimalRoundTrip(r.xlen);
    DecimalRoundTrip(r.ylen);
    DecimalRoundTrip(r.x0);
    DecimalRoundTrip(r.y0);
    NumeralsOfText(s, p + 1, ws, GeometrySeparators, [r.xlen, r.ylen, r.x0, r.y0]);
  }

  /** Inside a rectangle written at p, only its first and last characters are spaces. */
  lemma GeometryInnerSpaces(s: string, p: nat, r: Rect)
    requires HasAt(s, p, GeometryText(r))
    ensures forall q :: p < q < p + |GeometryText(r)| - 1 ==> s[q] != ' '
  {
    var t := NumeralsText(GeometryNumerals(r), GeometrySeparators);
    NumeralsTextSpaces(GeometryNumerals(r), GeometrySeparators);
    forall q | p < q < p + |GeometryText(r)| - 1 ensures s[q] != ' ' {
      assert s[q] == GeometryText(r)[q - p] == t[q - p - 1];
    }
  }

  /**
   * `re.match` of the header pattern on one line. `[\w-]*` can only match the
   * longest run of name characters (a space follows it), and the greedy `.*`
   * after `connected` makes the LAST geometry on the line the one captured.
   */
  function ParseHeader(line: string): Option<Header>
  {
    var n := NameEnd(line, 0);
    if HasAt(line, n, Connected) then
      match Last(n + |Connected|, |line|, (p: nat) => GeometryAt(line, p).Some?)
      case None => None
      case Some(p) => Some(Header(line[..n], GeometryAt(line, p).value))
    else None
  }

  /**
   * A header matches exactly when the longest run of name characters at the
   * start of the line is followed by ` connected` and a geometry follows
   * somewhere after that.
   */
  lemma ParseHeaderSpec(line: string)
    ensures ParseHeader(line).Some? <==>
      && HasAt(line, NameEnd(line, 0), Connected)
      && exists p :: NameEnd(line, 0) + |Connected| <= p < |line| && GeometryAt(line, p).Some?
  {
    var n := NameEnd(line, 0);
    if HasAt(line, n, Connected) {
      var found := (p: nat) => GeometryAt(line, p).Some?;
      assert forall p: nat :: found(p) == GeometryAt(line, p).Some?;
    }
  }

  /**
   * What a header captures: the name is that run of name characters, written
   * ahead of ` connected`, and the rectangle is the last geometry on the line.
   */
  lemma ParseHeaderCaptures(line: string)
    ensures ParseHeader(line).Some? ==>
      && HasAt(line, 0, ParseHeader(line).value.name + Connected)
      && (forall k :: 0 <= k < |ParseHeader(line).value.name| ==> IsNameChar(ParseHeader(line).value.name[k]))
    ensures ParseHeader(line).Some? ==> exists p ::
      && |ParseHeader(line).value.name| + |Connected| <= p < |line|
      && GeometryAt(line, p) == Some(ParseHeader(line).value.rect)
      && forall q :: p < q < |line| ==> GeometryAt(line, q).None?
  {
    var n := NameEnd(line, 0);
    if HasAt(line, n, Connected) {
      var found := (p: nat) => GeometryAt(line, p).Some?;
      assert forall p: nat :: found(p) == GeometryAt(line, p).Some?;
      if Last(n + |Connected|, |line|, found).Some? {
        assert line[..n + |Connected|] == line[..n] + Connected;
      }
    }
  }

  /**
   * A header as xrandr writes it, `<name> connected<...> WxH+X+Y <...>` with
   * the rectangle written from p on, gives back its name and rectangle,
   * provided no geometry starts at the space that closes the rectangle or
   * later.
   */
  lemma HeaderOfLine(line: string, name: string, p: nat, r: Rect)
    requires forall k :: 0 <= k < |name| ==> IsNameChar(name[k])
    requires HasAt(line, 0, name + Connected) && |name| + |Connected| <= p
    requires HasAt(line, p, GeometryText(r))
    requires forall q :: p + |GeometryText(r)| - 1 <= q < |line| ==> GeometryAt(line, q).None?
    ensures ParseHeader(line) == Some(Header(name, r))
  {
    var n := |name|;
    assert line[..n] == name && HasAt(line, n, Connected) by {
      assert line[..n] == (name + Connected)[..n];
      assert line[n..n + |Connected|] == (name + Connected)[n..];
    }
    GeometryOfText(line, p, r);
    GeometryInnerSpaces(line, p, r);
    forall q | p < q < |line| ensures GeometryAt(line, q).None? {
      if q < p + |GeometryText(r)| - 1 {
        assert line[q] != ' ';
      }
    }
    ParseHeaderOf(line, n, p, r);
  }

  /** A name run, ` connected`, and a last geometry at p make a header. */
  lemma ParseHeaderOf(line: string, n: nat, p: nat, r: Rect)
    requires n + |Connected| <= p < |line|
    requires (forall k :: 0 <= k < n ==> IsNameChar(line[k])) && HasAt(line, n, Connected)
    requires GeometryAt(line, p) == Some(r) && forall q :: p < q < |line| ==> GeometryAt(line, q).None?
    ensures ParseHeader(line) == Some(Header(line[..n], r))
  {
    assert line[n] == Connected[0];
    NameEndOfRun(line, 0, n);
    var found := (q: nat) => GeometryAt(line, q).Some?;
    assert forall q: nat :: found(q) == GeometryAt(line, q).Some?;
    LastAt(n + |Connected|, |line|, found, p);
  }

  // ---------------------------------------------------------------------------
  // EDID: the hex lines after the first `EDID:` line, stripped and joined.

  predicate IsEdidMarker(line: string)
  {
    Strip(line) == "EDID:"
  }

  /** `re.match(r"[0-9a-f]{32}", line.strip())`. */
  predicate IsHexLine(line: string)
  {
    StartsWithHex32(Strip(line))
  }

  /** `"".join(line.strip() for line in lines)`. */
  function ConcatStripped(lines: seq<string>): string
  {
    if lines == [] then "" else Strip(lines[0]) + ConcatStripped(lines[1..])
  }

  /** m is the first `EDID:` line of the block. */
  predicate FirstMarker(block: seq<string>, m: nat)
  {
    m < |block| && IsEdidMarker(block[m]) && forall k :: 0 <= k < m ==> !IsEdidMarker(block[k])
  }

  /**
   * The dump runs from m + 1 (the line after the first marker, taken whatever
   * it holds) up to e, the first later line that does not start with 32 hex
   * digits.
   */
  predicate EdidSpan(block: seq<string>, m: nat, e: nat)
  {
    && FirstMarker(block, m)
    && m + 1 < e < |block|
    && (forall k :: m + 1 < k < e ==> IsHexLine(block[k]))
    && !IsHexLine(block[e])
  }

  /** `[i for (i, line) in enumerate(block) if line.strip() == "EDID:"][0]`, when the list is not empty. */
  function MarkerIndex(block: seq<string>): (r: Option<nat>)
    ensures r.Some? ==> FirstMarker(block, r.value)
    ensures r.None? ==> forall k :: 0 <= k < |block| ==> !IsEdidMarker(block[k])
  {
    var marker := (k: nat) => k < |block| && IsEdidMarker(block[k]);
    assert forall k: nat :: k < |block| ==> marker(k) == IsEdidMarker(block[k]);
    First(0, |block|, marker)
  }

  /** The first line at or after i that does not start with 32 hex digits, if any. */
  function DumpEnd(block: seq<string>, i: nat): (r: Option<nat>)
    ensures r.Some? ==> i <= r.value < |block| && !IsHexLine(block[r.value])
    ensures r.Some? ==> forall k :: i <= k < r.value ==> IsHexLine(block[k])
    ensures r.None? ==> forall k :: i <= k < |block| ==> IsHexLine(block[k])
  {
    var ends := (k: nat) => k < |block| && !IsHexLine(block[k]);
    assert forall k: nat :: k < |block| ==> ends(k) == !IsHexLine(block[k]);
    First(i, |block|, ends)
  }

  /**
   * The EDID of a display's block. Both index lookups of the program fail
   * when their list is empty: no marker at all, or no line after the dump
   * that ends it. ExtractEdidOfSpan and ExtractEdidFailure say what it yields.
   */
  function ExtractEdid(block: seq<string>): (r: Result<string>)
    ensures r.Err? ==> r.error in {NoEdidMarker, EdidUnterminated}
  {
    match MarkerIndex(block)
    case None => Err(NoEdidMarker)
    case Some(m) =>
      var pos1 := m + 1;
      match DumpEnd(block, pos1 + 1)
      case None => Err(EdidUnterminated)
      case Some(pos2) => Ok(ConcatStripped(block[pos1..pos2]))
  }

  /** A block has at most one dump span. */
  lemma EdidSpanUnique(block: seq<string>, m: nat, e: nat, m': nat, e': nat)
    requires EdidSpan(block, m, e) && EdidSpan(block, m', e')
    ensures m == m' && e == e'
  {
  }

  /** When a block has a dump span, its EDID is the lines of the span, stripped and joined. */
  lemma ExtractEdidOfSpan(block: seq<string>, m: nat, e: nat)
    requires EdidSpan(block, m, e)
    ensures ExtractEdid(block) == Ok(ConcatStripped(block[m + 1..e]))
  {
    MarkerIndexOf(block, m);
    DumpEndOf(block, m + 2, e);
  }

  /** MarkerIndex finds the first marker. */
  lemma MarkerIndexOf(block: seq<string>, m: nat)
    requires FirstMarker(block, m)
    ensures MarkerIndex(block) == Some(m)
  {
  }

  /** DumpEnd finds the first line from i on that is not hex. */
  lemma DumpEndOf(block: seq<string>, i: nat, e: nat)
    requires i <= e < |block| && !IsHexLine(block[e])
    requires forall k :: i <= k < e ==> IsHexLine(block[k])
    ensures DumpEnd(block, i) == Some(e)
  {
  }

  /**
   * Without a dump span the EDID cannot be read: it is NoEdidMarker exactly
   * when no line is `EDID:`, and EdidUnterminated when hex lines run to the
   * end of the block.
   */
  lemma ExtractEdidFailure(block: seq<string>)
    ensures ExtractEdid(block).Err? <==> forall m: nat, e: nat :: !EdidSpan(block, m, e)
    ensures ExtractEdid(block) == Err(NoEdidMarker) <==> forall k :: 0 <= k < |block| ==> !IsEdidMarker(block[k])
    ensures ExtractEdid(block) == Err(EdidUnterminated) ==>
      exists m: nat :: FirstMarker(block, m) && forall k :: m + 1 < k < |block| ==> IsHexLine(block[k])
  {
    match MarkerIndex(block)
    case None =>
    case Some(m) =>
      match DumpEnd(block, m + 2)
      case None =>
        forall m': nat, e: nat ensures !EdidSpan(block, m', e) {
        }
      case Some(e) =>
        assert EdidSpan(block, m, e);
  }
}
