/**
 * The two values `find_best_crf` derives from the ffprobe report: the
 * frame rate parsed from the `r_frame_rate` field and the start of the
 * test sample taken from the middle of the video.
 */
module VideoProbe {
  import opened Wrappers
  import opened Decimal
  import opened PyString

  /** The frame rate assumed when the stream reports none (23.976 fps). */
  const DefaultFrameRate := "24000/1001"
  /** The rate used when the reported rate has a zero denominator. */
  const FallbackFps: real := 24.0
  /** Length of the test sample, in seconds. */
  const SampleSeconds: real := 10.0

  /**
   * The fps of `get_video_properties`: the field's text (the default when
   * the field is absent) read as `num/den`, or as a plain number when it has
   * no '/'. `None` is the `ValueError` that makes the script exit.
   */
  function FrameRate(field: Option<string>): Option<real> {
    RateText(if field.Some? then field.value else DefaultFrameRate)
  }

  /** The reading of the rate text itself. */
  function RateText(text: string): Option<real> {
    var k := Find(text, '/');
    if k >= 0 then
      var num, den := text[..k], text[k + 1..];
      if '/' in den then None  // `split('/')` gives more than two parts
      else
        match (ParseInt(num), ParseInt(den))
        case (Some(n), Some(d)) => Some(if d != 0 then n as real / d as real else FallbackFps)
        case _ => None
    else ParseDecimal(text)
  }

  lemma NoSlashInIntText(i: int)
    ensures '/' !in IntText(i)
  {
    var t := IntText(i);
    forall k | 0 <= k < |t| ensures t[k] != '/' {
      if i < 0 && k > 0 { assert t[k] == NatText(-i)[k - 1]; }
    }
  }

  /** The text `n/d` gives n/d, and the fallback 24 fps when d is zero. */
  lemma FrameRateOfRatio(n: int, d: int)
    ensures FrameRate(Some(IntText(n) + "/" + IntText(d))) == Some(if d != 0 then n as real / d as real else FallbackFps)
  {
    RateOfRatio(n, d);
  }

  lemma RateOfRatio(n: int, d: int)
    ensures RateText(IntText(n) + "/" + IntText(d)) == Some(if d != 0 then n as real / d as real else FallbackFps)
  {
    var a, b := IntText(n), IntText(d);
    var text := a + "/" + b;
    NoSlashInIntText(n);
    NoSlashInIntText(d);
    assert text[|a|] == '/' && text[..|a|] == a;
    assert Find(text, '/') == |a|;
    assert text[|a| + 1..] == b;
    ParseIntText(n);
    ParseIntText(d);
  }

  lemma DefaultFrameRateText()
    ensures DefaultFrameRate == IntText(24000) + "/" + IntText(1001)
  {
    assert NatText(2) == "2";
    assert NatText(24) == NatText(2) + [DigitChar(4)] == "24";
    assert NatText(240) == NatText(24) + [DigitChar(0)] == "240";
    assert NatText(2400) == NatText(240) + [DigitChar(0)] == "2400";
    assert IntText(24000) == NatText(2400) + [DigitChar(0)] == "24000";
    assert NatText(1) == "1";
    assert NatText(10) == NatText(1) + [DigitChar(0)] == "10";
    assert NatText(100) == NatText(10) + [DigitChar(0)] == "100";
    assert IntText(1001) == NatText(100) + [DigitChar(1)] == "1001";
  }

  /** A stream without an `r_frame_rate` field is taken to run at 24000/1001 fps. */
  lemma FrameRateMissing()
    ensures FrameRate(None) == Some(24000 as real / 1001 as real)
  {
    RateOfRatio(24000, 1001);
    DefaultFrameRateText();
  }

  /** A rate written as a whole number, without '/', is read as that number. */
  lemma FrameRateWhole(i: int)
    ensures FrameRate(Some(IntText(i))) == Some(i as real)
  {
    NoSlashInIntText(i);
    ParseDecimalIntText(i);
  }

  /** A rate written as `w.f`, without '/', is read as that decimal. */
  lemma FrameRateDecimal(whole: string, frac: string)
    requires AllDigits(whole) && AllDigits(frac) && |whole| > 0
    ensures FrameRate(Some(whole + "." + frac)) == Some(FixedPoint(whole, frac))
  {
    var text := whole + "." + frac;
    assert '/' !in text by {
      forall k | 0 <= k < |text| ensures text[k] != '/' {
        if k < |whole| { assert IsDigit(whole[k]); }
        else if k > |whole| { assert IsDigit(frac[k - |whole| - 1]); }
      }
    }
    ParseFixedPoint(whole, frac);
  }

  /** More than one '/' is a `ValueError`, whatever surrounds them. */
  lemma FrameRateTwoSlashes(a: string, b: string, c: string)
    requires '/' !in a
    ensures FrameRate(Some(a + "/" + b + "/" + c)) == None
  {
    var text := a + "/" + b + "/" + c;
    assert text[|a|] == '/' && text[..|a|] == a;
    assert Find(text, '/') == |a|;
    var den := text[|a| + 1..];
    assert den[|b|] == '/';
  }

  /**
   * `max(0, duration / 2 - SAMPLE_DURATION_SECONDS / 2)`: the sample is
   * centred in the video when the video is long enough, and starts at 0
   * otherwise.
   */
  function SampleStart(duration: real): (start: real)
    ensures start >= 0.0
    ensures duration >= SampleSeconds ==> start + SampleSeconds <= duration && start == duration - (start + SampleSeconds)
    ensures duration <= SampleSeconds ==> start == 0.0
  {
    if duration / 2.0 - SampleSeconds / 2.0 > 0.0 then duration / 2.0 - SampleSeconds / 2.0 else 0.0
  }
}
