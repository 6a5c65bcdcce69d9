# monitor_brightness, modelled in Dafny

`monitor_brightness.py` reads or sets the brightness of the monitor under the
mouse pointer. It works in three steps:

- **Find the active monitor.** It reads the pointer position from the
  `--shell` output of `xdotool getmouselocation` (`X=…`, `Y=…` lines). It cuts
  the output of `xrandr --verbose` into one block of lines per output. A block
  counts as a candidate when its header line (`<name> connected … WxH+X+Y …`)
  gives a rectangle holding the pointer. The EDID of every candidate is
  rebuilt from the hex dump that follows the block's `EDID:` line, so a broken
  dump in any candidate is an error. The first candidate is the active monitor.
- **Find the brightness feature code.** The DDC/CI brightness feature code of a
  display is looked up in a cache keyed by the first 256 characters of its
  EDID. On a miss, the code is taken from the `Feature: <code> (Brightness)`
  line of `ddcutil capabilities`, stored, and the whole cache is written back
  to its file.
- **Dispatch.** The laptop panel `eDP1` goes through `light`. Every other
  display goes through `ddcutil getvcp`/`setvcp`, addressed by its EDID key.

This project models that core:

- The tools are not run. Their output is an input of the model, and every
  brightness operation yields the argument vector of the command it runs.
- Each Python exception on the way becomes an `Err` of `Wrappers.Result`. The
  Python code raises these exceptions:
  - `AttributeError`: a missing `X=`/`Y=` field;
  - `ValueError`: an empty field;
  - `IndexError`: an indented first line, a missing `EDID:` marker, a dump
    that runs to the end of its block, or no display under the pointer.

Modules:

| module | file | contents |
|---|---|---|
| `Wrappers` | `wrappers.dfy` | `Option`, `Result` and the errors |
| `Seqs` | `seqs.dfy` | the leftmost and rightmost position with a property, used for `re.search` and for a greedy `.*`; flattening |
| `Text` | `text.dfy` | Python's `str.isspace`/`strip`/`split`/`join`/`startswith`, the regex classes `\d`, `[0-9a-f]` and `[\w-]`, `int()`/`str()` on integers |
| `Pointer` | `pointer.dfy` | the cursor fields |
| `Xrandr` | `xrandr.dfy` | blocks, the header pattern, the EDID dump |
| `Resolver` | `resolver.dfy` | the matching loop and `get_active_monitor` |
| `FeatureCache` | `feature_cache.dfy` | the EDID key, the capabilities report and the `Cache` class holding `g_feature_lookup` and its file |
| `Brightness` | `brightness.dfy` | the commands, the dispatch on `eDP1` and the two subcommands |

Each regular expression is written out as the match Python's backtracking
engine finds:

- `re.search` takes the leftmost position where the pattern matches.
- A `\d+` or `\d*` followed by a literal that is not a digit can only capture
  the longest run of digits.
- `[\w-]*` followed by a space can only capture the longest run of name
  characters.
- The greedy `.*` in the header pattern makes the LAST ` WxH+X+Y ` on the line
  the one captured.

Some functions compute only and carry no contract of their own: `Strip`,
`ParseHeader`, `Blocks`, `Matches` and `Feature`. `ExtractEdid` only states
which errors it can give. Their properties are stated in the lemmas listed
below. The two loops of `get_active_monitor` are methods proved equal to such
functions: `SplitBlocks` computes `Blocks` and `Resolve` computes `Resolution`.
`GetActiveMonitor` chains them and is proved equal to `ActiveMonitor`.

## Model

| member | source | states |
|---|---|---|
| Text.StripSpec | monitor_brightness.py:79-82 | `strip()` removes a run of white space from each end and nothing else: the result is a slice of the line with only white space outside it, and it neither starts nor ends with white space; it is empty exactly for an all-blank line and is the line itself when the ends are not blank |
| Text.Split | monitor_brightness.py:63 | `split('\n')` gives at least one piece and no piece holds a newline |
| Text.JoinSplit | monitor_brightness.py:63 | joining the pieces of `split('\n')` with newlines gives back the output |
| Text.SplitJoin | monitor_brightness.py:63 | splitting a join of newline-free lines gives back the lines, so no line is lost or merged |
| Text.DigitsEnd | monitor_brightness.py:53-56 | a `\d` run is maximal: digits up to the end, a non-digit (or the end) after it |
| Text.DecimalRoundTrip | monitor_brightness.py:54-57 | `int(str(n)) == n` for every natural number |
| Text.SignedRoundTrip | monitor_brightness.py:135 | `int(str(v)) == v` for every integer, negative ones included |
| Text.RecordAt | monitor_brightness.py:95 | a record written as prefix, digits, suffix (the suffix not starting with a digit) is matched with exactly those digits |
| Pointer.FindField | monitor_brightness.py:53-56 | the position found is the leftmost where `<tag>(\d*)\n` matches, and none means no position matches |
| Pointer.ParseField | monitor_brightness.py:53-56 | `FieldMissing` exactly when the pattern never matches; otherwise the leftmost match decides: an empty run of digits is `FieldEmpty`, and any other run gives `Ok` of `int` of those digits |
| Pointer.ParseCursor | monitor_brightness.py:53-56 | succeeds exactly when both fields parse, with their values; a bad `X=` is the error reported, and with a good `X=` a bad `Y=` is |
| Pointer.ParseCursorOfShellOutput | monitor_brightness.py:51-56 | the pointer tool's output `X=<x>\nY=<y>\n…` is read back as the cursor (x, y) |
| Xrandr.SplitBlocks | monitor_brightness.py:62-66 | the partition loop computes `Blocks` of the lines |
| Xrandr.BlocksOpen | monitor_brightness.py:64-66 | a line that is not indented opens a block of its own after the blocks so far, which stay a partition |
| Xrandr.BlocksGrow | monitor_brightness.py:64-66 | an indented line is added to the latest block, and the blocks stay a partition |
| Xrandr.BlocksPartition | monitor_brightness.py:62-66 | partitioning fails (`IndexError`) exactly when the first line is indented; otherwise the blocks, flattened, are the lines and each is a non-indented line followed by indented ones |
| Xrandr.PartitionUnique | monitor_brightness.py:62-66 | there is only one such partition of the lines |
| Xrandr.NumeralsOfText | monitor_brightness.py:71-76 | numerals written each before a separator that is not a digit are read back as `int` of each numeral |
| Xrandr.GeometryOfText | monitor_brightness.py:71-76 | a rectangle written ` WxH+X+Y ` is read back as that rectangle |
| Xrandr.GeometryInnerSpaces | monitor_brightness.py:71 | inside a written rectangle only the first and last characters are spaces, so no other geometry starts there |
| Xrandr.ParseHeaderSpec | monitor_brightness.py:70-72 | the header matches exactly when the longest run of `[\w-]` at the start of the line is followed by ` connected` and a geometry comes later |
| Xrandr.ParseHeaderCaptures | monitor_brightness.py:70-76 | the name captured is that run of name characters, followed by ` connected`, and the rectangle is the last geometry on the line |
| Xrandr.ParseHeaderOf | monitor_brightness.py:70-76 | a name run, ` connected`, and a geometry at p with none after it give that name and the geometry at p |
| Xrandr.HeaderOfLine | monitor_brightness.py:70-76 | a header written `<name> connected… WxH+X+Y …` with no geometry after it is parsed into that name and rectangle |
| Xrandr.MarkerIndex | monitor_brightness.py:78-79 | the index of the first `EDID:` line after stripping, or none when no line is one |
| Xrandr.DumpEnd | monitor_brightness.py:80-81 | the first line from a position on that does not start with 32 lower-case hex digits after stripping, or none when they all do |
| Xrandr.EdidSpanUnique | monitor_brightness.py:78-81 | a block has at most one dump span |
| Xrandr.ExtractEdidOfSpan | monitor_brightness.py:78-82 | with a dump span, the EDID is the lines from the one after the marker up to the end line, stripped and joined; the line right after the marker is taken whatever it holds |
| Xrandr.ExtractEdidFailure | monitor_brightness.py:78-81 | the EDID cannot be read exactly when there is no dump span; it is `NoEdidMarker` exactly when no line is `EDID:`, and `EdidUnterminated` means hex lines run to the block's end |
| Resolver.AdjacentExclusive | monitor_brightness.py:77 | the containment test is half-open on both axes: two displays side by side or one above the other never both hold a point, and their shared edge belongs to the right (or lower) one, which holds it |
| Resolver.Inspect | monitor_brightness.py:70-83 | the loop body takes a block exactly when it is a candidate, and fails exactly when the candidate's EDID cannot be read, with that error; otherwise it takes the header's name and the block's EDID |
| Resolver.Resolve | monitor_brightness.py:68-86 | the matching loop computes `Resolution`: stop at the first EDID failure, else the first match or `NoMonitorAtCursor` |
| Resolver.ScanOk | monitor_brightness.py:69-83 | the loop runs through exactly when no block makes it fail |
| Resolver.ScanErr | monitor_brightness.py:69-83 | a failing loop reports the error of the first block it fails on; every block before it passes |
| Resolver.ScanEmpty | monitor_brightness.py:69-83 | the loop collects nothing exactly when it takes no block |
| Resolver.ScanFirst | monitor_brightness.py:69-83 | the first value collected comes from the first block taken |
| Resolver.ResolutionOk | monitor_brightness.py:68-86 | the resolver succeeds exactly when some display holds the cursor and every display holding it has a readable EDID |
| Resolver.ResolutionIsFirstCandidate | monitor_brightness.py:68-86 | on success the monitor is the name and EDID of the first display, in output order, whose rectangle holds the cursor |
| Resolver.ResolutionNoMatch | monitor_brightness.py:84-86 | `matches[0]` fails for want of a match exactly when no display holds the cursor |
| Resolver.GetActiveMonitor | monitor_brightness.py:50-86 | reads the cursor, drops the first line of the display listing, partitions the rest and resolves, with the first error winning |
| Resolver.ActiveMonitorOfOutputs | monitor_brightness.py:50-86 | on the outputs the tools print (the pointer fields, then a first line and the display blocks), the result is the resolver's on exactly those blocks |
| Resolver.ResolutionOfOne | monitor_brightness.py:68-86 | a single display that holds the cursor and has a readable EDID is the monitor resolved, with its header's name and its EDID |
| Resolver.ActiveMonitorOfOneDisplay | monitor_brightness.py:50-86 | with one display in the listing, holding the cursor and with a readable EDID, `get_active_monitor` returns that display's name and EDID |
| FeatureCache.Key | monitor_brightness.py:90-92 | the key is the first 256 characters of the EDID, or the whole EDID when shorter |
| FeatureCache.KeyEquality | monitor_brightness.py:90-92 | two EDIDs share a key exactly when they are equal or both have at least 256 characters and agree on the first 256 |
| FeatureCache.KeyIdempotent | monitor_brightness.py:90-98 | a stored key keys to itself |
| FeatureCache.ParseCapabilities | monitor_brightness.py:95-97 | nothing exactly when `Feature: (\d+) \(Brightness\)` matches nowhere in the report; otherwise the code of the leftmost match |
| FeatureCache.FeatureOfRecord | monitor_brightness.py:95-97 | `Feature: <n> (Brightness)` matches where it is written, with code n |
| FeatureCache.FeatureInLine | monitor_brightness.py:95 | the pattern holds no newline, so a match that starts on a line ends on it |
| FeatureCache.NoFeatureBefore | monitor_brightness.py:95 | whole lines without a brightness record cannot start a match, whatever follows them |
| FeatureCache.CapabilitiesOfReport | monitor_brightness.py:95-97 | a report whose lines before its `Feature: <n> (Brightness)` line hold no brightness record (they may list other features) yields n, also when that line is indented, as the DDC tool prints it |
| FeatureCache.NoFeatureInIndent | monitor_brightness.py:95 | no match starts inside an indent that holds no `F` |
| FeatureCache.SecondLookupHits | monitor_brightness.py:89-100 | once a lookup has found a code, a second lookup gives the same code, changes neither the table nor the file and requests no report; a code learned for a new key is in the file written |
| FeatureCache.StoreAfterKeepsOthers | monitor_brightness.py:89-100 | a lookup changes no entry but the key's and adds none but it; a known key leaves the table as it is |
| FeatureCache.Cache.Load | monitor_brightness.py:33-42 | the table starts as the file's table, or empty when there is no file or `json.loads` rejects its text; the memory table agrees with the file |
| FeatureCache.Cache.Flush | monitor_brightness.py:44-46 | the file then holds the whole table, which is unchanged |
| FeatureCache.Cache.GetBrightnessFeature | monitor_brightness.py:89-100 | a known key is answered from the table with nothing changed; an unknown key requests its report once; a code found is stored under the key and the file rewritten, and nothing is stored when none is found; the new table, file and requests are those a lookup of the key gives (`AfterLookup`), and the table and the file stay in agreement |
| FeatureCache.Cache.AskTwice | monitor_brightness.py:89-100 | a second lookup of a display whose code was found gives the same code and requests no second report: the report was requested once if the key was new, and never if it was known, and the table and the file end as one lookup leaves them; when the first lookup finds nothing, the second finds nothing either, nothing is stored and the report is requested twice |
| Brightness.FeatureTextRoundTrip | monitor_brightness.py:113 | `str(feature)` reads back as the code, and a missing code is passed as the non-numeral `None` |
| Brightness.CommandArguments | monitor_brightness.py:134-145 | the value given reaches `light -S` and `setvcp` unchanged, both DDC commands name the display by its key, and the feature argument is the code |
| Brightness.GetBrightness | monitor_brightness.py:121-131 | `eDP1` is read with `light` and the cache is untouched; any other display with `getvcp` on its key and the feature the cache gives, the cache left as that lookup leaves it |
| Brightness.SetBrightness | monitor_brightness.py:147-151 | `eDP1` is set with `sudo light -S <value>` and the cache is untouched; any other display with `setvcp` on its key, the feature the cache gives and the value, the cache left as that lookup leaves it |
| Brightness.PrintBrightnessCli | monitor_brightness.py:154-158 | a failure to find the active monitor ends the command with that error before any lookup; otherwise the monitor's read command, with the cache untouched for `eDP1` and left as the lookup leaves it for any other display |
| Brightness.SetBrightnessCli | monitor_brightness.py:161-164 | a failure to find the active monitor ends the command with that error before any lookup; otherwise the monitor's set command with the value, with the cache untouched for `eDP1` and left as the lookup leaves it for any other display |

## Left out

- Running the tools (`xdotool`, `xrandr`, `ddcutil`, `light`, `sudo`) is not modelled. Their output is a parameter, the capabilities report is a function from key to text held by the cache, and each brightness operation returns the argument vector it would run.
- The brightness values read back are not modelled: the `float` parsing of `light`'s output (monitor_brightness.py:106) and of the `getvcp` reply (monitor_brightness.py:115-118). `GetBrightness` yields the command only.
- The cache file is a field holding a table (monitor_brightness.py:33-46). `None` stands for a missing file or one `json.loads` rejects. A file that cannot be read makes the program fail. A file that holds JSON other than an object of integer codes can raise `TypeError` at monitor_brightness.py:90 or :98, or pass a non-integer to ddcutil. Neither is modelled. JSON encoding and decoding and the file system are not modelled.
- FeatureCache.Cache.Valid: the table agrees with the file only for a single process. Other processes writing the cache file (the last writer wins) are not modelled.
- FeatureCache.Cache.GetBrightnessFeature: the capabilities report is taken to be the same every time for a key. Hardware that answers differently from one call to the next is not modelled.
- The timing printer `pt`, the `print` calls and the "more than one match" warning (monitor_brightness.py:84-85) only write to the terminal and are not modelled.
- Argument parsing and `main` (monitor_brightness.py:167-195) are not modelled. The two subcommands are modelled from the point where the value is an integer.
- The regex classes `\d` and `\w` are restricted to ASCII. Python's Unicode digits and letters beyond ASCII are not modelled, and `int()` is modelled on ASCII digits only.
