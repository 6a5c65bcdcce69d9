/**
 * The active monitor resolver: the displays whose header matches and whose
 * rectangle holds the cursor, in output order, and the first of them.
 */
module Resolver {
  import opened Wrappers
  import opened Seqs
  import opened Text
  import opened Pointer
  import opened Xrandr

  /** A monitor: its output name and its EDID as the full hex string. */
  datatype Monitor = Monitor(name: string, EDID: string)

  /** The half-open test `x0 <= x < x0+xlen and y0 <= y < y0+ylen`. */
  predicate Contains(r: Rect, x: int, y: int)
  {
    r.x0 <= x < r.x0 + r.xlen && r.y0 <= y < r.y0 + r.ylen
  }

  /**
   * Two displays that touch, side by side or one above the other, never both
   * hold a point: the test is half-open on both axes, so the shared edge
   * belongs to the right (or lower) display alone.
   */
  lemma AdjacentExclusive(a: Rect, b: Rect, x: int, y: int)
    ensures b.x0 == a.x0 + a.xlen ==> !(Contains(a, x, y) && Contains(b, x, y))
    ensures b.y0 == a.y0 + a.ylen ==> !(Contains(a, x, y) && Contains(b, x, y))
    ensures b.x0 == a.x0 + a.xlen && b.xlen > 0 && x == b.x0 && b.y0 <= y < b.y0 + b.ylen
            ==> Contains(b, x, y) && !Contains(a, x, y)
    ensures b.y0 == a.y0 + a.ylen && b.ylen > 0 && y == b.y0 && b.x0 <= x < b.x0 + b.xlen
            ==> Contains(b, x, y) && !Contains(a, x, y)
  {
  }

  /** A block whose header matches and whose rectangle holds the cursor. */
  predicate IsCandidate(block: seq<string>, x: int, y: int)
  {
    block != [] && ParseHeader(block[0]).Some? && Contains(ParseHeader(block[0]).value.rect, x, y)
  }

  /** The monitor a candidate block describes, or the error reading its EDID. */
  function MonitorOf(block: seq<string>): Result<Monitor>
    requires block != [] && ParseHeader(block[0]).Some?
  {
    match ExtractEdid(block)
    case Err(e) => Err(e)
    case Ok(edid) => Ok(Monitor(ParseHeader(block[0]).value.name, edid))
  }

  /**
   * What the loop body makes of one block: nothing when it is not a
   * candidate, otherwise the monitor it describes or the error reading its EDID.
   */
  function Inspect(block: seq<string>, x: int, y: int): (r: Option<Result<Monitor>>)
    ensures r.Some? <==> IsCandidate(block, x, y)
    ensures r.Some? ==> r.value.Err? == ExtractEdid(block).Err?
    ensures r.Some? && r.value.Err? ==> r.value.error == ExtractEdid(block).error
    ensures r.Some? && r.value.Ok? ==>
      r.value.value == Monitor(ParseHeader(block[0]).value.name, ExtractEdid(block).value)
  {
    if IsCandidate(block, x, y) then Some(MonitorOf(block)) else None
  }

  /**
   * A loop over items that, item by item, skips it, appends a value, or stops
   * with an error: the list built after the given items, or that error.
   */
  function Scan<B, M>(items: seq<B>, step: B -> Option<Result<M>>): Result<seq<M>>
    decreases |items|
  {
    if items == [] then Ok([])
    else
      match Scan(items[..|items| - 1], step)
      case Err(e) => Err(e)
      case Ok(ms) =>
        match step(items[|items| - 1])
        case None => Ok(ms)
        case Some(Err(e)) => Err(e)
        case Some(Ok(m)) => Ok(ms + [m])
  }

  /** Once the scan has failed on some item, the result is that failure. */
  lemma {:induction false} ScanErrExtends<B, M>(items: seq<B>, i: nat, step: B -> Option<Result<M>>)
    requires i <= |items| && Scan(items[..i], step).Err?
    ensures Scan(items, step) == Scan(items[..i], step)
    decreases |items|
  {
    if i < |items| {
      var pre := items[..|items| - 1];
      assert pre[..i] == items[..i];
      ScanErrExtends(pre, i, step);
    } else {
      assert items[..i] == items;
    }
  }

  /** An item at which the step fails. */
  predicate Fails<B, M>(step: B -> Option<Result<M>>, item: B)
  {
    step(item).Some? && step(item).value.Err?
  }

  /** The scan succeeds exactly when the step fails on no item. */
  lemma {:induction false} ScanOk<B, M>(items: seq<B>, step: B -> Option<Result<M>>)
    ensures Scan(items, step).Ok? <==> forall k :: 0 <= k < |items| ==> !Fails(step, items[k])
    decreases |items|
  {
    if items != [] {
      var pre := items[..|items| - 1];
      ScanOk(pre, step);
      assert forall k :: 0 <= k < |pre| ==> pre[k] == items[k];
    }
  }

  /** A failed scan stops with the error of the first item the step fails on. */
  lemma {:induction false} ScanErr<B, M>(items: seq<B>, step: B -> Option<Result<M>>)
    requires Scan(items, step).Err?
    ensures exists k :: 0 <= k < |items| && step(items[k]) == Some(Err(Scan(items, step).error))
                        && forall j :: 0 <= j < k ==> !Fails(step, items[j])
    decreases |items|
  {
    var pre := items[..|items| - 1];
    assert forall j :: 0 <= j < |pre| ==> pre[j] == items[j];
    if Scan(pre, step).Err? {
      ScanErr(pre, step);
      var k :| 0 <= k < |pre| && step(pre[k]) == Some(Err(Scan(pre, step).error))
               && forall j :: 0 <= j < k ==> !Fails(step, pre[j]);
      assert items[k] == pre[k];
    } else {
      ScanOk(pre, step);
      assert step(items[|items| - 1]) == Some(Err(Scan(items, step).error));
    }
  }

  /** A successful scan has collected nothing exactly when the step skipped every item. */
  lemma {:induction false} ScanEmpty<B, M>(items: seq<B>, step: B -> Option<Result<M>>)
    requires Scan(items, step).Ok?
    ensures Scan(items, step).value == [] <==> forall k :: 0 <= k < |items| ==> step(items[k]).None?
    decreases |items|
  {
    if items != [] {
      var pre := items[..|items| - 1];
      ScanEmpty(pre, step);
      assert forall k :: 0 <= k < |pre| ==> pre[k] == items[k];
    }
  }

  /** The first item the step does not skip is at k. */
  predicate FirstTaken<B, M>(items: seq<B>, step: B -> Option<Result<M>>, k: nat)
  {
    k < |items| && step(items[k]).Some? && forall j :: 0 <= j < k ==> step(items[j]).None?
  }

  /** The first value a successful scan collects comes from the first item not skipped. */
  lemma {:induction false} ScanFirst<B, M>(items: seq<B>, step: B -> Option<Result<M>>)
    requires Scan(items, step).Ok? && Scan(items, step).value != []
    ensures exists k: nat :: FirstTaken(items, step, k) && step(items[k]) == Some(Ok(Scan(items, step).value[0]))
    decreases |items|
  {
    var pre := items[..|items| - 1];
    assert forall k :: 0 <= k < |pre| ==> pre[k] == items[k];
    if Scan(pre, step).value != [] {
      ScanFirst(pre, step);
      var k: nat :| FirstTaken(pre, step, k) && step(pre[k]) == Some(Ok(Scan(pre, step).value[0]));
      assert FirstTaken(items, step, k);
    } else {
      ScanEmpty(pre, step);
      assert FirstTaken(items, step, |items| - 1);
    }
  }

  /**
   * The list of matches the loop has built after the given blocks, or the
   * error that stopped it: the EDID of a candidate is read as soon as the
   * candidate is found, and a failure there ends everything.
   */
  function Matches(blocks: seq<seq<string>>, x: int, y: int): Result<seq<Monitor>>
  {
    Scan(blocks, (b: seq<string>) => Inspect(b, x, y))
  }

  /** `matches[0]`: the first match, or a failure when there is none. */
  function Resolution(blocks: seq<seq<string>>, x: int, y: int): Result<Monitor>
  {
    match Matches(blocks, x, y)
    case Err(e) => Err(e)
    case Ok(ms) => if ms == [] then Err(NoMonitorAtCursor) else Ok(ms[0])
  }

  /** The matching loop of the resolver. */
  method Resolve(blocks: seq<seq<string>>, x: int, y: int) returns (r: Result<Monitor>)
    ensures r == Resolution(blocks, x, y)
  {
    ghost var step := (b: seq<string>) => Inspect(b, x, y);
    var matches: seq<Monitor> := [];
    for i := 0 to |blocks|
      invariant Scan(blocks[..i], step) == Ok(matches)
    {
      var monitor := blocks[i];
      assert blocks[..i + 1][..i] == blocks[..i];
      assert step(monitor) == Inspect(monitor, x, y);
      if IsCandidate(monitor, x, y) {
        var edid := ExtractEdid(monitor);
        if edid.Err? {
          ScanErrExtends(blocks, i + 1, step);
          return Err(edid.error);
        }
        matches := matches + [Monitor(ParseHeader(monitor[0]).value.name, edid.value)];
      }
    }
    assert blocks[..|blocks|] == blocks;
    if matches == [] {
      return Err(NoMonitorAtCursor);
    }
    return Ok(matches[0]);
  }

  /** The first candidate block is at k. */
  predicate FirstCandidate(blocks: seq<seq<string>>, x: int, y: int, k: nat)
  {
    k < |blocks| && IsCandidate(blocks[k], x, y) && forall j :: 0 <= j < k ==> !IsCandidate(blocks[j], x, y)
  }

  /**
   * The resolver succeeds exactly when some display holds the cursor and
   * every display that holds it has a readable EDID.
   */
  lemma ResolutionOk(blocks: seq<seq<string>>, x: int, y: int)
    ensures Resolution(blocks, x, y).Ok? <==>
      && (exists k :: 0 <= k < |blocks| && IsCandidate(blocks[k], x, y))
      && forall k :: 0 <= k < |blocks| && IsCandidate(blocks[k], x, y) ==> ExtractEdid(blocks[k]).Ok?
  {
    var step := (b: seq<string>) => Inspect(b, x, y);
    assert forall b :: step(b) == Inspect(b, x, y);
    ScanOk(blocks, step);
    if Matches(blocks, x, y).Ok? {
      ScanEmpty(blocks, step);
    }
  }

  /** When the resolver succeeds, it returns the monitor of the first display that holds the cursor. */
  lemma ResolutionIsFirstCandidate(blocks: seq<seq<string>>, x: int, y: int)
    requires Resolution(blocks, x, y).Ok?
    ensures exists k: nat ::
      && FirstCandidate(blocks, x, y, k)
      && Resolution(blocks, x, y).value.name == ParseHeader(blocks[k][0]).value.name
      && ExtractEdid(blocks[k]) == Ok(Resolution(blocks, x, y).value.EDID)
  {
    var step := (b: seq<string>) => Inspect(b, x, y);
    assert forall b :: step(b) == Inspect(b, x, y);
    ScanFirst(blocks, step);
    var k: nat :| FirstTaken(blocks, step, k) && step(blocks[k]) == Some(Ok(Scan(blocks, step).value[0]));
    assert FirstCandidate(blocks, x, y, k);
  }

  /** The resolver reports that no display holds the cursor exactly when none does. */
  lemma ResolutionNoMatch(blocks: seq<seq<string>>, x: int, y: int)
    ensures Resolution(blocks, x, y) == Err(NoMonitorAtCursor) <==>
      forall k :: 0 <= k < |blocks| ==> !IsCandidate(blocks[k], x, y)
  {
    var step := (b: seq<string>) => Inspect(b, x, y);
    assert forall b :: step(b) == Inspect(b, x, y);
    if Matches(blocks, x, y).Ok? {
      ScanEmpty(blocks, step);
    } else {
      ScanErr(blocks, step);
      var k :| 0 <= k < |blocks| && step(blocks[k]) == Some(Err(Scan(blocks, step).error));
      assert ExtractEdid(blocks[k]).Err?;
    }
  }

  /**
   * `get_active_monitor` as a whole: read the cursor, drop the first line of
   * the display listing, cut the rest into blocks and resolve.
   */
  function ActiveMonitor(pointerOutput: string, xrandrOutput: string): Result<Monitor>
  {
    match ParseCursor(pointerOutput)
    case Err(e) => Err(e)
    case Ok(c) =>
      match Blocks(Split(xrandrOutput, '\n')[1..])
      case Err(e) => Err(e)
      case Ok(blocks) => Resolution(blocks, c.x, c.y)
  }

  method GetActiveMonitor(pointerOutput: string, xrandrOutput: string) returns (r: Result<Monitor>)
    ensures r == ActiveMonitor(pointerOutput, xrandrOutput)
  {
    var cursor := ParseCursor(pointerOutput);
    if cursor.Err? {
      return Err(cursor.error);
    }
    var lines := Split(xrandrOutput, '\n')[1..];
    var monitors := SplitBlocks(lines);
    if monitors.Err? {
      return Err(monitors.error);
    }
    r := Resolve(monitors.value, cursor.value.x, cursor.value.y);
  }

  /** What the pointer tool prints: `X=<x>`, `Y=<y>` on lines of their own, then anything. */
  function PointerText(x: nat, y: nat, rest: string): string
  {
    "X=" + DecimalString(x) + "\nY=" + DecimalString(y) + "\n" + rest
  }

  /**
   * On the outputs the tools print (the cursor position, then a first line
   * and the display blocks, no line holding a newline), the active monitor
   * is what the resolver makes of exactly those blocks.
   */
  lemma ActiveMonitorOfOutputs(x: nat, y: nat, rest: string, first: string, bs: seq<seq<string>>)
    requires '\n' !in first
    requires forall k :: 0 <= k < |bs| ==> IsBlock(bs[k])
    requires forall k :: 0 <= k < |Flatten(bs)| ==> '\n' !in Flatten(bs)[k]
    ensures ActiveMonitor(PointerText(x, y, rest), Join([first] + Flatten(bs), '\n')) == Resolution(bs, x, y)
  {
    ParseCursorOfShellOutput(x, y, rest);
    var lines := [first] + Flatten(bs);
    assert forall k :: 0 <= k < |lines| ==> '\n' !in lines[k] by {
      forall k | 0 <= k < |lines| ensures '\n' !in lines[k] {
        if k > 0 {
          assert lines[k] == Flatten(bs)[k - 1];
        }
      }
    }
    SplitJoin(lines, '\n');
    assert Split(Join(lines, '\n'), '\n')[1..] == Flatten(bs);
    BlocksPartition(Flatten(bs));
    if bs != [] {
      assert Flatten(bs) == bs[0] + Flatten(bs[1..]);
      assert Flatten(bs)[0] == bs[0][0];
    }
    PartitionUnique(Blocks(Flatten(bs)).value, bs, Flatten(bs));
  }

  /**
   * With one display, which holds the cursor and whose EDID can be read, the
   * active monitor is that display, under its header's name.
   */
  lemma ActiveMonitorOfOneDisplay(x: nat, y: nat, rest: string, first: string, block: seq<string>, h: Header, edid: string)
    requires '\n' !in first && IsBlock(block)
    requires forall k :: 0 <= k < |block| ==> '\n' !in block[k]
    requires ParseHeader(block[0]) == Some(h) && Contains(h.rect, x, y)
    requires ExtractEdid(block) == Ok(edid)
    ensures ActiveMonitor(PointerText(x, y, rest), Join([first] + block, '\n')) == Ok(Monitor(h.name, edid))
  {
    assert ActiveMonitor(PointerText(x, y, rest), Join([first] + block, '\n')) == Resolution([block], x, y) by {
      assert Flatten([block]) == block + Flatten([block][1..]);
      assert [block][1..] == [];
      assert Flatten([block]) == block;
      ActiveMonitorOfOutputs(x, y, rest, first, [block]);
    }
    ResolutionOfOne(block, x, y);
  }

  /** One display that holds the cursor and whose EDID can be read is the one resolved. */
  lemma ResolutionOfOne(block: seq<string>, x: int, y: int)
    requires IsCandidate(block, x, y) && ExtractEdid(block).Ok?
    ensures Resolution([block], x, y) == Ok(Monitor(ParseHeader(block[0]).value.name, ExtractEdid(block).value))
  {
    var blocks := [block];
    assert IsCandidate(blocks[0], x, y);
    ResolutionOk(blocks, x, y);
    ResolutionIsFirstCandidate(blocks, x, y);
  }
}
