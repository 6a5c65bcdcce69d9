/**
 * The per-display cache of the brightness feature code. A display is keyed
 * by the first 256 characters of its EDID; a miss asks the DDC tool for the
 * display's capabilities report and takes the code from the line
 * `Feature: <code> (Brightness)`. A code found is remembered and the whole
 * lookup is written back to the cache file at once.
 */
module FeatureCache {
  import opened Wrappers
  import opened Seqs
  import opened Text

  /** How many characters of the EDID identify a display. */
  const KeyLength := 256

  /** `edid[:256]`: the display key (the whole EDID when it is shorter). */
  function Key(edid: string): (k: string)
    ensures |k| == if |edid| < KeyLength then |edid| else KeyLength
    ensures k == edid[..|k|]
  {
    if |edid| <= KeyLength then edid else edid[..KeyLength]
  }

  /** Two EDIDs share a key exactly when they are equal or agree on their first 256 characters. */
  lemma KeyEquality(a: string, b: string)
    ensures Key(a) == Key(b) <==>
      a == b || (|a| >= KeyLength && |b| >= KeyLength && a[..KeyLength] == b[..KeyLength])
  {
  }

  /** Keying a key changes nothing: the stored keys are themselves keys. */
  lemma KeyIdempotent(edid: string)
    ensures Key(Key(edid)) == Key(edid)
  {
  }

  const FeatureTag := "Feature: "
  const BrightnessTag := " (Brightness)"

  /**
   * The code captured by `Feature: (\d+) \(Brightness\)` when it matches at
   * position p, if it does. A space follows `\d+`, so only the longest run
   * of digits can be captured.
   */
  function FeatureAt(text: string, p: nat): Option<nat>
  {
    if HasAt(text, p, FeatureTag) then
      var a := p + |FeatureTag|;
      var e := DigitsEnd(text, a);
      if a < e && HasAt(text, e, BrightnessTag) then Some(DecimalValue(text[a..e])) else None
    else None
  }

  /**
   * `re.search(r"Feature: (\d+) \(Brightness\)", report)`: the code of the
   * leftmost match, or nothing when the report has none.
   */
  function ParseCapabilities(report: string): (r: Option<nat>)
    ensures r.None? <==> forall p :: 0 <= p <= |report| ==> FeatureAt(report, p).None?
    ensures r.Some? ==> exists p :: 0 <= p <= |report| && FeatureAt(report, p) == r
                                   && forall q :: 0 <= q < p ==> FeatureAt(report, q).None?
  {
    var found := (p: nat) => FeatureAt(report, p).Some?;
    assert forall p: nat :: found(p) == FeatureAt(report, p).Some?;
    match First(0, |report| + 1, found)
    case None => None
    case Some(p) => FeatureAt(report, p)
  }

  /** The brightness line written with a code is read back as that code. */
  lemma FeatureOfRecord(report: string, p: nat, ds: string)
    requires AllDigits(ds) && ds != []
    requires HasAt(report, p, FeatureTag + ds + BrightnessTag)
    ensures FeatureAt(report, p) == Some(DecimalValue(ds))
  {
    RecordAt(report, p, FeatureTag, ds, BrightnessTag);
    var a := p + |FeatureTag|;
    assert DigitsEnd(report, a) == a + |ds| && report[a..a + |ds|] == ds;
  }

  /** When the leftmost match is at p, its code is the one found. */
  lemma ParseCapabilitiesAtFirst(report: string, p: nat)
    requires p <= |report| && FeatureAt(report, p).Some?
    requires forall q :: 0 <= q < p ==> FeatureAt(report, q).None?
    ensures ParseCapabilities(report) == FeatureAt(report, p)
  {
  }

  /**
   * The pattern holds no newline, so a match that starts before a newline
   * ends before it too: it is a match of the text up to that newline.
   */
  lemma FeatureInLine(head: string, more: string, q: nat)
    requires q < |head| && head[|head| - 1] == '\n'
    requires FeatureAt(head + more, q).Some?
    ensures FeatureAt(head, q) == FeatureAt(head + more, q)
  {
    var t := head + more;
    var nl := |head| - 1;
    var a := q + |FeatureTag|;
    WordEndsBefore(t, q, FeatureTag, nl);
    var e := DigitsEnd(t, a);
    DigitsEndBefore(t, a, nl);
    WordEndsBefore(t, e, BrightnessTag, nl);
    assert head[q..a] == t[q..a];
    assert head[a..e] == t[a..e];
    assert head[e..e + |BrightnessTag|] == t[e..e + |BrightnessTag|];
    assert !IsDigit(head[e]);
    DigitsEndOfRun(head, a, e);
  }

  /** A text of whole lines in which the pattern never matches cannot start a match. */
  lemma NoFeatureBefore(head: string, more: string)
    requires head == [] || head[|head| - 1] == '\n'
    requires forall q :: 0 <= q < |head| ==> FeatureAt(head, q).None?
    ensures forall q :: 0 <= q < |head| ==> FeatureAt(head + more, q).None?
  {
    forall q | 0 <= q < |head| ensures FeatureAt(head + more, q).None? {
      if FeatureAt(head + more, q).Some? {
        FeatureInLine(head, more, q);
      }
    }
  }

  /**
   * A report whose lines before the brightness line hold no brightness
   * record (they may list other features), and whose brightness line is
   * indented by characters other than `F`, yields the brightness line's code.
   */
  lemma CapabilitiesOfReport(head: string, indent: string, n: nat, rest: string)
    requires head == [] || head[|head| - 1] == '\n'
    requires forall q :: 0 <= q < |head| ==> FeatureAt(head, q).None?
    requires 'F' !in indent
    ensures ParseCapabilities(head + (indent + (FeatureTag + DecimalString(n) + BrightnessTag + rest))) == Some(n)
  {
    var ds := DecimalString(n);
    var tail := FeatureTag + ds + BrightnessTag + rest;
    var report := head + (indent + tail);
    var p := |head| + |indent|;
    ReportLayout(head, indent, ds, rest);
    FeatureOfRecord(report, p, ds);
    NoFeatureBefore(head, indent + tail);
    NoFeatureInIndent(report, |head|, indent);
    ParseCapabilitiesAtFirst(report, p);
    DecimalRoundTrip(n);
  }

  /** Where the indent and the brightness record of CapabilitiesOfReport's report stand. */
  lemma ReportLayout(head: string, indent: string, ds: string, rest: string)
    ensures HasAt(head + (indent + (FeatureTag + ds + BrightnessTag + rest)), |head|, indent)
    ensures HasAt(head + (indent + (FeatureTag + ds + BrightnessTag + rest)), |head| + |indent|,
                  FeatureTag + ds + BrightnessTag)
  {
    var w := FeatureTag + ds + BrightnessTag;
    var report := head + (indent + (w + rest));
    assert FeatureTag + ds + BrightnessTag + rest == w + rest;
    assert report[|head|..|head| + |indent|] == indent;
    assert report[|head| + |indent|..|head| + |indent| + |w|] == w;
  }

  /** No match starts inside a stretch without the letter `F`. */
  lemma NoFeatureInIndent(report: string, lo: nat, indent: string)
    requires 'F' !in indent && HasAt(report, lo, indent)
    ensures forall q :: lo <= q < lo + |indent| ==> FeatureAt(report, q).None?
  {
    forall q | lo <= q < lo + |indent| ensures FeatureAt(report, q).None? {
      assert report[q] == indent[q - lo];
      assert !HasAt(report, q, FeatureTag) by {
        if q + |FeatureTag| <= |report| {
          assert report[q..q + |FeatureTag|][0] == report[q];
        }
      }
    }
  }

  /**
   * The feature code a lookup in the given table gives for a key: the stored
   * code, or for an unknown key whatever the key's capabilities report holds.
   */
  function Feature(lookup: map<string, nat>, capabilities: string -> string, key: string): Option<nat>
  {
    if key in lookup then Some(lookup[key]) else ParseCapabilities(capabilities(key))
  }

  /** The table after a lookup of key: a code found in the report is stored under the key. */
  function StoreAfter(lookup: map<string, nat>, capabilities: string -> string, key: string): map<string, nat>
  {
    match Feature(lookup, capabilities, key)
    case None => lookup
    case Some(v) => lookup[key := v]
  }

  /** The cache file after a lookup of key: rewritten with the new table when a code was learned. */
  function FileAfter(file: Option<map<string, nat>>, lookup: map<string, nat>, capabilities: string -> string,
                     key: string): Option<map<string, nat>>
  {
    if key !in lookup && Feature(lookup, capabilities, key).Some? then Some(StoreAfter(lookup, capabilities, key))
    else file
  }

  /** The report requests after a lookup of key: one more exactly when the key was unknown. */
  ghost function ProbesAfter(probes: seq<string>, lookup: map<string, nat>, key: string): seq<string>
  {
    if key in lookup then probes else probes + [key]
  }

  /**
   * Once a lookup has found a code, the key is known: a second lookup gives
   * the same code, leaves the table and the file as they are and requests no
   * report; and the file then holds a table that gives that code as well, so
   * a program started again from the file finds it without a request.
   */
  lemma SecondLookupHits(lookup: map<string, nat>, file: Option<map<string, nat>>, probes: seq<string>,
                         capabilities: string -> string, key: string)
    requires Feature(lookup, capabilities, key).Some?
    ensures var lookup' := StoreAfter(lookup, capabilities, key);
      && key in lookup'
      && Feature(lookup', capabilities, key) == Feature(lookup, capabilities, key)
      && StoreAfter(lookup', capabilities, key) == lookup'
      && FileAfter(file, lookup', capabilities, key) == file
      && ProbesAfter(probes, lookup', key) == probes
    ensures key !in lookup ==>
      && FileAfter(file, lookup, capabilities, key) == Some(StoreAfter(lookup, capabilities, key))
      && key in FileAfter(file, lookup, capabilities, key).value
      && Feature(FileAfter(file, lookup, capabilities, key).value, capabilities, key) == Feature(lookup, capabilities, key)
  {
  }

  /** A lookup changes no entry but the key's, and adds none but it. */
  lemma StoreAfterKeepsOthers(lookup: map<string, nat>, capabilities: string -> string, key: string)
    ensures StoreAfter(lookup, capabilities, key).Keys <= lookup.Keys + {key}
    ensures lookup.Keys <= StoreAfter(lookup, capabilities, key).Keys
    ensures forall k :: k in lookup && k != key ==> StoreAfter(lookup, capabilities, key)[k] == lookup[k]
    ensures key in lookup ==> StoreAfter(lookup, capabilities, key) == lookup
  {
  }

  /**
   * The feature lookup of the program: the table in memory, the cache file
   * it is loaded from and written to, and the DDC tool's capabilities
   * report for each key.
   */
  class Cache {
    /** `g_feature_lookup`: key to brightness feature code. */
    var lookup: map<string, nat>
    /** The cache file's table; None when there is no file or `json.loads` rejects its text. */
    var file: Option<map<string, nat>>
    /** The keys the capabilities report was requested for, in order. */
    ghost var probes: seq<string>
    /** The report `ddcutil -e <key> capabilities` prints for each key. */
    const capabilities: string -> string

    /** The table in memory is the one in the file, unless there is no file table and nothing was learned yet. */
    ghost predicate Valid()
      reads this
    {
      file == Some(lookup) || (file.None? && lookup == map[])
    }

    /** The table, the file and the requests are those a lookup of key makes from the given ones. */
    ghost predicate AfterLookup(lookup0: map<string, nat>, file0: Option<map<string, nat>>, probes0: seq<string>,
                                key: string)
      reads this
    {
      && lookup == StoreAfter(lookup0, capabilities, key)
      && file == FileAfter(file0, lookup0, capabilities, key)
      && probes == ProbesAfter(probes0, lookup0, key)
    }

    /** `load_feature_lookup`: start from the file's table, or from an empty one when there is no file or its text is not JSON. */
    constructor Load(stored: Option<map<string, nat>>, capabilities: string -> string)
      ensures Valid()
      ensures lookup == (if stored.Some? then stored.value else map[])
      ensures file == stored && probes == [] && this.capabilities == capabilities
    {
      lookup := if stored.Some? then stored.value else map[];
      file := stored;
      probes := [];
      this.capabilities := capabilities;
    }

    /** `flush_g_feature_lookup`: the file now holds the whole table. */
    method Flush()
      modifies this
      ensures file == Some(lookup)
      ensures lookup == old(lookup) && probes == old(probes)
    {
      file := Some(lookup);
    }

    /**
     * `get_brightness_feature`: a known key is answered from the table with
     * no report requested; an unknown one requests the report, and a code
     * found there is stored and written to the file, while nothing is stored
     * when the report has no brightness line.
     */
    method GetBrightnessFeature(edid: string) returns (r: Option<nat>)
      requires Valid()
      modifies this
      ensures Valid()
      ensures r == Feature(old(lookup), capabilities, Key(edid))
      ensures AfterLookup(old(lookup), old(file), old(probes), Key(edid))
      ensures Key(edid) in old(lookup) ==> unchanged(this)
      ensures Key(edid) !in old(lookup) ==> probes == old(probes) + [Key(edid)]
      ensures Key(edid) !in old(lookup) && r.Some? ==>
        lookup == old(lookup)[Key(edid) := r.value] && file == Some(lookup)
      ensures Key(edid) !in old(lookup) && r.None? ==>
        lookup == old(lookup) && file == old(file)
    {
      var key := Key(edid);
      if key in lookup {
        return Some(lookup[key]);
      }
      probes := probes + [key];
      var report := capabilities(key);
      r := ParseCapabilities(report);
      if r.Some? {
        lookup := lookup[key := r.value];
        Flush();
      }
    }

    /**
     * Asking twice for the same display: the second answer is the first
     * whenever the first found a code, and the report is requested at most
     * once, the table and the file ending as one lookup leaves them. When the
     * first finds nothing, nothing is stored and the report is requested again.
     */
    method AskTwice(edid: string) returns (first: Option<nat>, second: Option<nat>)
      requires Valid()
      modifies this
      ensures Valid()
      ensures first.Some? ==> second == first
      ensures first.Some? ==> AfterLookup(old(lookup), old(file), old(probes), Key(edid))
      ensures first.Some? && Key(edid) !in old(lookup) ==> probes == old(probes) + [Key(edid)]
      ensures Key(edid) in old(lookup) ==> probes == old(probes) && first.Some?
      ensures first.None? ==>
        && second.None? && lookup == old(lookup) && file == old(file)
        && probes == old(probes) + [Key(edid), Key(edid)]
    {
      first := GetBrightnessFeature(edid);
      second := GetBrightnessFeature(edid);
    }
  }
}
