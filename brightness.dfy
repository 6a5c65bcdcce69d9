/**
 * Reading and setting the brightness of a monitor: the laptop panel goes
 * through the backlight tool, every other display through DDC/CI, addressed
 * by its EDID key and the brightness feature code from the cache. The tools
 * are not run here; each operation yields the command line it runs.
 */
module Brightness {
  import opened Wrappers
  import opened Text
  import opened Resolver
  import opened FeatureCache

  /** The output name of the built-in panel. */
  const LaptopMonitor := "eDP1"

  /** The prefix that runs a command as root. */
  const Sudo := ["sudo"]

  /** Python's `str(feature)`: the code, or `None` when no code was found. */
  function FeatureText(feature: Option<nat>): string
  {
    match feature
    case None => "None"
    case Some(n) => DecimalString(n)
  }

  /** The feature argument reads back as the code it was made from, and a missing code is not a numeral. */
  lemma FeatureTextRoundTrip(feature: Option<nat>)
    ensures feature.Some? ==> AllDigits(FeatureText(feature)) && DecimalValue(FeatureText(feature)) == feature.value
    ensures feature.None? ==> !IsSignedNumeral(FeatureText(feature))
  {
    if feature.Some? {
      DecimalRoundTrip(feature.value);
    } else {
      assert !IsDigit(FeatureText(feature)[0]);
    }
  }

  /** `light`: print the backlight level. */
  const ReadBacklight := ["light"]

  /** `sudo light -S <value>`. */
  function WriteBacklight(value: int): seq<string>
  {
    Sudo + ["light", "-S", SignedString(value)]
  }

  /** `sudo ddcutil -e <key> getvcp <feature>`. */
  function ReadVcp(key: string, feature: Option<nat>): seq<string>
  {
    Sudo + ["ddcutil", "-e", key, "getvcp", FeatureText(feature)]
  }

  /** `sudo ddcutil -e <key> setvcp <feature> <value>`. */
  function WriteVcp(key: string, feature: Option<nat>, value: int): seq<string>
  {
    Sudo + ["ddcutil", "-e", key, "setvcp", FeatureText(feature), SignedString(value)]
  }

  /**
   * The value a set command hands to its tool is the value asked for, and the
   * DDC commands name the display by its key and the feature by its code.
   */
  lemma CommandArguments(key: string, feature: Option<nat>, value: int)
    ensures |WriteBacklight(value)| == 4 && IsSignedNumeral(WriteBacklight(value)[3])
    ensures SignedValue(WriteBacklight(value)[3]) == value
    ensures |WriteVcp(key, feature, value)| == 7 && IsSignedNumeral(WriteVcp(key, feature, value)[6])
    ensures SignedValue(WriteVcp(key, feature, value)[6]) == value
    ensures WriteVcp(key, feature, value)[3] == ReadVcp(key, feature)[3] == key
    ensures feature.Some? ==> DecimalValue(WriteVcp(key, feature, value)[5]) == feature.value
    ensures feature.Some? ==> DecimalValue(ReadVcp(key, feature)[5]) == feature.value
  {
    SignedRoundTrip(value);
    FeatureTextRoundTrip(feature);
  }

  /**
   * `get_brightness`: the laptop panel is read through the backlight tool and
   * the cache is left alone; any other display is read over DDC with the
   * feature code the cache gives for its key.
   */
  method GetBrightness(cache: Cache, monitor: Monitor) returns (command: seq<string>)
    requires cache.Valid()
    modifies cache
    ensures cache.Valid()
    ensures monitor.name == LaptopMonitor ==> command == ReadBacklight && unchanged(cache)
    ensures monitor.name != LaptopMonitor ==>
      command == ReadVcp(Key(monitor.EDID), Feature(old(cache.lookup), cache.capabilities, Key(monitor.EDID)))
    ensures monitor.name != LaptopMonitor ==>
      cache.AfterLookup(old(cache.lookup), old(cache.file), old(cache.probes), Key(monitor.EDID))
  {
    if monitor.name == LaptopMonitor {
      command := ReadBacklight;
    } else {
      var feature := cache.GetBrightnessFeature(monitor.EDID);
      command := ReadVcp(Key(monitor.EDID), feature);
    }
  }

  /**
   * `set_brightness`: the laptop panel is set through the backlight tool and
   * the cache is left alone; any other display is set over DDC with the
   * feature code the cache gives for its key.
   */
  method SetBrightness(cache: Cache, monitor: Monitor, value: int) returns (command: seq<string>)
    requires cache.Valid()
    modifies cache
    ensures cache.Valid()
    ensures monitor.name == LaptopMonitor ==> command == WriteBacklight(value) && unchanged(cache)
    ensures monitor.name != LaptopMonitor ==>
      command == WriteVcp(Key(monitor.EDID), Feature(old(cache.lookup), cache.capabilities, Key(monitor.EDID)), value)
    ensures monitor.name != LaptopMonitor ==>
      cache.AfterLookup(old(cache.lookup), old(cache.file), old(cache.probes), Key(monitor.EDID))
  {
    if monitor.name == LaptopMonitor {
      command := WriteBacklight(value);
    } else {
      var feature := cache.GetBrightnessFeature(monitor.EDID);
      command := WriteVcp(Key(monitor.EDID), feature, value);
    }
  }

  /**
   * `print_brightness_cli`: find the monitor under the cursor and read its
   * brightness; a failure to find it ends the command before any tool runs.
   */
  method PrintBrightnessCli(cache: Cache, pointerOutput: string, xrandrOutput: string)
    returns (r: Result<seq<string>>)
    requires cache.Valid()
    modifies cache
    ensures cache.Valid()
    ensures ActiveMonitor(pointerOutput, xrandrOutput).Err? ==>
      r == Err(ActiveMonitor(pointerOutput, xrandrOutput).error) && unchanged(cache)
    ensures ActiveMonitor(pointerOutput, xrandrOutput).Ok? ==>
      var monitor := ActiveMonitor(pointerOutput, xrandrOutput).value;
      r == Ok(if monitor.name == LaptopMonitor then ReadBacklight
              else ReadVcp(Key(monitor.EDID), Feature(old(cache.lookup), cache.capabilities, Key(monitor.EDID))))
    ensures ActiveMonitor(pointerOutput, xrandrOutput).Ok? ==>
      var monitor := ActiveMonitor(pointerOutput, xrandrOutput).value;
      if monitor.name == LaptopMonitor then unchanged(cache)
      else cache.AfterLookup(old(cache.lookup), old(cache.file), old(cache.probes), Key(monitor.EDID))
  {
    var monitor := GetActiveMonitor(pointerOutput, xrandrOutput);
    if monitor.Err? {
      return Err(monitor.error);
    }
    var command := GetBrightness(cache, monitor.value);
    r := Ok(command);
  }

  /**
   * `set_brightness_cli`: find the monitor under the cursor and set its
   * brightness to the value given; a failure to find it ends the command
   * before any tool runs.
   */
  method SetBrightnessCli(cache: Cache, pointerOutput: string, xrandrOutput: string, value: int)
    returns (r: Result<seq<string>>)
    requires cache.Valid()
    modifies cache
    ensures cache.Valid()
    ensures ActiveMonitor(pointerOutput, xrandrOutput).Err? ==>
      r == Err(ActiveMonitor(pointerOutput, xrandrOutput).error) && unchanged(cache)
    ensures ActiveMonitor(pointerOutput, xrandrOutput).Ok? ==>
      var monitor := ActiveMonitor(pointerOutput, xrandrOutput).value;
      r == Ok(if monitor.name == LaptopMonitor then WriteBacklight(value)
              else WriteVcp(Key(monitor.EDID), Feature(old(cache.lookup), cache.capabilities, Key(monitor.EDID)), value))
    ensures ActiveMonitor(pointerOutput, xrandrOutput).Ok? ==>
      var monitor := ActiveMonitor(pointerOutput, xrandrOutput).value;
      if monitor.name == LaptopMonitor then unchanged(cache)
      else cache.AfterLookup(old(cache.lookup), old(cache.file), old(cache.probes), Key(monitor.EDID))
  {
    var monitor := GetActiveMonitor(pointerOutput, xrandrOutput);
    if monitor.Err? {
      return Err(monitor.error);
    }
    var command := SetBrightness(cache, monitor.value, value);
    r := Ok(command);
  }
}
