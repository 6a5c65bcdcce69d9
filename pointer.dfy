/**
 * The cursor position, read from the `--shell` output of the pointer-location
 * tool (lines such as `X=1234`, `Y=567`). The tool itself is not modelled: its
 * output is the input text.
 */
module Pointer {
  import opened Wrappers
  import opened Seqs
  import opened Text

  datatype Cursor = Cursor(x: nat, y: nat)

  /**
   * The digits captured by `<tag>(\d*)\n` when it matches at position p, if it
   * does. `\d*` is followed by a newline, which is not a digit, so the only way
   * the pattern can match is with the longest run of digits.
   */
  function FieldAt(text: string, tag: string, p: nat): Option<string>
  {
    if HasAt(text, p, tag) then
      var e := DigitsEnd(text, p + |tag|);
      if e < |text| && text[e] == '\n' then Some(text[p + |tag|..e]) else None
    else None
  }

  /** `<tag>(\d*)\n` matches at p and at no earlier position. */
  predicate FirstFieldAt(text: string, tag: string, p: nat)
  {
    && FieldAt(text, tag, p).Some?
    && AllDigits(FieldAt(text, tag, p).value)
    && forall q :: 0 <= q < p ==> FieldAt(text, tag, q).None?
  }

  /** The leftmost position at which `<tag>(\d*)\n` matches, if any. */
  function FindField(text: string, tag: string): (r: Option<nat>)
    ensures r.Some? ==> r.value <= |text| && FieldAt(text, tag, r.value).Some?
    ensures r.Some? ==> forall q :: 0 <= q < r.value ==> FieldAt(text, tag, q).None?
    ensures r.None? ==> forall p :: 0 <= p <= |text| ==> FieldAt(text, tag, p).None?
  {
    var found := (p: nat) => FieldAt(text, tag, p).Some?;
    assert forall p: nat :: found(p) == FieldAt(text, tag, p).Some?;
    First(0, |text| + 1, found)
  }

  /**
   * `int(re.search(tag + r"(\d*)\n", text).groups()[0])`: the leftmost match
   * decides; no match is an error, and so is a match with no digits.
   */
  function ParseField(text: string, tag: string): (r: Result<nat>)
    ensures r == Err(FieldMissing(tag)) <==> forall p :: 0 <= p <= |text| ==> FieldAt(text, tag, p).None?
    ensures r.Ok? ==> exists p :: 0 <= p <= |text| && FirstFieldAt(text, tag, p)
                                 && FieldAt(text, tag, p).value != []
                                 && r.value == DecimalValue(FieldAt(text, tag, p).value)
    ensures r.Err? ==> r.error in {FieldMissing(tag), FieldEmpty(tag)}
    ensures forall p :: 0 <= p <= |text| && FieldAt(text, tag, p).Some?
                        && (forall q :: 0 <= q < p ==> FieldAt(text, tag, q).None?) ==>
      r == (if FieldAt(text, tag, p).value == [] then Err(FieldEmpty(tag))
            else Ok(DecimalValue(FieldAt(text, tag, p).value)))
  {
    match FindField(text, tag)
    case None => Err(FieldMissing(tag))
    case Some(p) =>
      var ds := FieldAt(text, tag, p).value;
      if ds == [] then Err(FieldEmpty(tag)) else Ok(DecimalValue(ds))
  }

  /** The cursor position: X is read first, so its failure is the one reported. */
  function ParseCursor(text: string): (r: Result<Cursor>)
    ensures r.Ok? <==> ParseField(text, "X=").Ok? && ParseField(text, "Y=").Ok?
    ensures r.Ok? ==> r.value == Cursor(ParseField(text, "X=").value, ParseField(text, "Y=").value)
    ensures ParseField(text, "X=").Err? ==> r == Err(ParseField(text, "X=").error)
    ensures ParseField(text, "X=").Ok? && ParseField(text, "Y=").Err? ==> r == Err(ParseField(text, "Y=").error)
  {
    match ParseField(text, "X=")
    case Err(e) => Err(e)
    case Ok(x) =>
      match ParseField(text, "Y=")
      case Err(e) => Err(e)
      case Ok(y) => Ok(Cursor(x, y))
  }

  /** The fields the tool writes, in the order it writes them, are read back. */
  lemma ParseCursorOfShellOutput(x: nat, y: nat, rest: string)
    ensures ParseCursor("X=" + DecimalString(x) + "\nY=" + DecimalString(y) + "\n" + rest)
         == Ok(Cursor(x, y))
  {
    ShellFieldX(DecimalString(x), DecimalString(y), rest);
    ShellFieldY(DecimalString(x), DecimalString(y), rest);
    DecimalRoundTrip(x);
    DecimalRoundTrip(y);
  }

  lemma ShellFieldX(xs: string, ys: string, rest: string)
    requires AllDigits(xs) && xs != []
    ensures ParseField("X=" + xs + "\nY=" + ys + "\n" + rest, "X=") == Ok(DecimalValue(xs))
  {
    var tail := "\nY=" + ys + "\n" + rest;
    ShellLayout(xs, ys, rest);
    FieldAfter("", xs, tail, "X=");
  }

  lemma ShellFieldY(xs: string, ys: string, rest: string)
    requires AllDigits(xs) && AllDigits(ys) && ys != []
    ensures ParseField("X=" + xs + "\nY=" + ys + "\n" + rest, "Y=") == Ok(DecimalValue(ys))
  {
    var head := "X=" + xs + "\n";
    NumeralLineHasNoY(xs);
    ShellLayout(xs, ys, rest);
    FieldAfter(head, ys, "\n" + rest, "Y=");
  }

  /** The two ways the shell output is cut up above are the same text. */
  lemma ShellLayout(xs: string, ys: string, rest: string)
    ensures "" + "X=" + xs + ("\nY=" + ys + "\n" + rest) == "X=" + xs + "\nY=" + ys + "\n" + rest
    ensures ("X=" + xs + "\n") + "Y=" + ys + ("\n" + rest) == "X=" + xs + "\nY=" + ys + "\n" + rest
  {
  }

  lemma NumeralLineHasNoY(ds: string)
    requires AllDigits(ds)
    ensures 'Y' !in "X=" + ds + "\n"
  {
    var head := "X=" + ds + "\n";
    forall k | 0 <= k < |head| ensures head[k] != 'Y' {
      if 2 <= k < 2 + |ds| {
        assert head[k] == ds[k - 2];
      }
    }
  }

  /** A numeral written after a stretch without the tag's first character is the field's value. */
  lemma FieldAfter(head: string, ds: string, tail: string, tag: string)
    requires tag != [] && tag[0] !in head
    requires AllDigits(ds) && ds != [] && tail != [] && tail[0] == '\n'
    ensures ParseField(head + tag + ds + tail, tag) == Ok(DecimalValue(ds))
  {
    var text := head + tag + ds + tail;
    var p := |head|;
    assert text[p..p + |tag| + |ds| + 1] == tag + ds + "\n";
    FieldOfNumeral(text, tag, p, ds);
    NoFieldBefore(head, tag + ds + tail, tag);
    assert head + (tag + ds + tail) == text;
  }

  /** A tag cannot match where its first character does not occur. */
  lemma NoFieldBefore(head: string, more: string, tag: string)
    requires tag != [] && tag[0] !in head
    ensures forall q :: 0 <= q < |head| ==> FieldAt(head + more, tag, q).None?
  {
    forall q | 0 <= q < |head| ensures FieldAt(head + more, tag, q).None? {
      var text := head + more;
      assert text[q] == head[q];
    }
  }

  /** A field written as tag, numeral, newline is found where it was written. */
  lemma FieldOfNumeral(text: string, tag: string, p: nat, ds: string)
    requires AllDigits(ds)
    requires p + |tag| + |ds| < |text|
    requires text[p..p + |tag| + |ds| + 1] == tag + ds + "\n"
    ensures FieldAt(text, tag, p) == Some(ds)
  {
    var a := p + |tag|;
    var w := text[p..p + |tag| + |ds| + 1];
    assert w[..|tag|] == tag && w[|tag|..|tag| + |ds|] == ds && w[|tag| + |ds|] == '\n';
    assert forall k :: 0 <= k < |w| ==> text[p + k] == w[k];
    assert text[p..a] == tag;
    assert text[a..a + |ds|] == ds;
    assert text[a + |ds|] == '\n';
    DigitsEndOfRun(text, a, a + |ds|);
  }
}
