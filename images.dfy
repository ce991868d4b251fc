/** Selection of machine images (delete-ami-parallel): the exclusion list and the creation date. */
module Images {
  import opened Options
  import opened Int64Arith
  import opened GoStrings
  import opened Descriptors

  /** `time.Time{}.Unix()`: what `time.Parse` leaves behind when its error is discarded. */
  const ZeroTimeUnix: Int64 := -62135596800

  /** `AmiCheck`: a linear search of the exclusion list that stops at the first match. */
  function AmiCheck(amiId: string, exclusions: seq<string>): (excluded: bool)
    ensures excluded <==> amiId in exclusions
  {
    if exclusions == [] then false
    else if exclusions[0] == amiId then true
    else AmiCheck(amiId, exclusions[1..])
  }

  /**
   * The rewrite of `*image.CreationDate` into the "2006-01-02 15:04:05" layout: the text before
   * the first "." is split at "T", and pieces 0 and 1 are joined by a space. `None` stands for
   * the index-out-of-range panic of piece 1 when that text holds no "T".
   */
  function NormalizeDate(creationDate: string): (r: Option<string>)
    ensures r.None? <==> 'T' !in Split(creationDate, '.')[0]
  {
    var head := Split(creationDate, '.')[0];
    var fields := Split(head, 'T');
    SplitWithoutSeparator(head, 'T');
    if |fields| < 2 then None
    else Some(fields[0] + " " + fields[1])
  }

  /**
   * The rewrite on a date made of a day part and a clock part joined by "T", followed by
   * nothing, by fractional seconds (".000Z"), or by a further "T": the result is the day
   * part, one space, and the clock part.
   */
  lemma NormalizeIsoDate(day: string, clock: string, tail: string)
    requires 'T' !in day && '.' !in day && 'T' !in clock && '.' !in clock
    requires tail == [] || tail[0] == '.' || tail[0] == 'T'
    ensures NormalizeDate(day + "T" + clock + tail) == Some(day + " " + clock)
  {
    var more := HeadBeforeDot(day, clock, tail);
    SplitAtFirst(day, clock + more, 'T');
    if more != [] {
      SplitAtFirst(clock, more[1..], 'T');
      assert clock + more == clock + ['T'] + more[1..];
    } else {
      SplitWithoutSeparator(clock, 'T');
      assert clock + more == clock;
    }
  }

  /**
   * The text before the first "." of such a date is the day, "T", the clock, and `more`, which
   * is empty unless the tail starts with "T".
   */
  lemma HeadBeforeDot(day: string, clock: string, tail: string) returns (more: string)
    requires '.' !in day && '.' !in clock
    requires tail == [] || tail[0] == '.' || tail[0] == 'T'
    ensures Split(day + "T" + clock + tail, '.')[0] == day + ['T'] + (clock + more)
    ensures more == [] || more[0] == 'T'
  {
    var prefix := day + ['T'] + clock;
    assert '.' !in prefix;
    assert prefix == day + ['T'] + (clock + []);
    if tail == [] {
      more := [];
      assert day + "T" + clock + tail == prefix;
      SplitWithoutSeparator(prefix, '.');
    } else if tail[0] == '.' {
      more := [];
      assert day + "T" + clock + tail == prefix + ['.'] + tail[1..];
      SplitAtFirst(prefix, tail[1..], '.');
    } else {
      more := ['T'] + Split(tail[1..], '.')[0];
      assert day + "T" + clock + tail == (prefix + ['T']) + tail[1..];
      SplitPrefix(prefix + ['T'], tail[1..], '.');
      assert (prefix + ['T']) + Split(tail[1..], '.')[0] == day + ['T'] + (clock + more);
    }
  }

  /** The provider's usual format loses its fractional seconds and zone letter. */
  lemma NormalizeProviderExample()
    ensures NormalizeDate("2016-01-02T03:04:05.000Z") == Some("2016-01-02 03:04:05")
  {
    var day, clock, tail := "2016-01-02", "03:04:05", ".000Z";
    assert 'T' !in day && '.' !in day && 'T' !in clock && '.' !in clock && tail[0] == '.';
    NormalizeIsoDate(day, clock, tail);
    assert day + "T" + clock + tail == "2016-01-02T03:04:05.000Z";
    assert day + " " + clock == "2016-01-02 03:04:05";
  }

  /**
   * `datetime.Unix()` after `datetime, _ := time.Parse(layout, text)`: the parsed instant, or
   * the zero time when parsing failed. `parseTime` stands for the calendar library. Because the
   * error is discarded, a failed parse cannot be told apart from a date of year 1.
   */
  function CreationUnix(parseTime: string -> Option<Int64>, text: string): (unix: Int64)
    ensures parseTime(text).Some? ==> unix == parseTime(text).value
    ensures unix == ZeroTimeUnix <==> parseTime(text) == None || parseTime(text) == Some(ZeroTimeUnix)
  {
    match parseTime(text)
    case Some(u) => u
    case None => ZeroTimeUnix
  }

  /**
   * The loop body for one image: excluded ids are skipped first, then the date is rewritten
   * (which may panic), parsed, and compared with the threshold. An excluded image is skipped
   * whatever its date, even one that would make the rewrite panic; any other image crashes the
   * run exactly when its date has no "T" before its first ".".
   */
  function ImageDecision(s: Settings, parseTime: string -> Option<Int64>, id: string, creationDate: string): (d: Decision)
    ensures id in s.exclusions ==> d == Skip
    ensures d == Crash <==> id !in s.exclusions && 'T' !in Split(creationDate, '.')[0]
  {
    if AmiCheck(id, s.exclusions) then Skip
    else match NormalizeDate(creationDate)
      case None => Crash
      case Some(text) => if Stale(s.now, s.delta, CreationUnix(parseTime, text)) then Submit else Skip
  }

  /**
   * A non-excluded image with a well-formed date is submitted exactly when its age is strictly
   * greater than delta (age computed without overflow); an age equal to delta is skipped.
   */
  lemma ImageAgeThreshold(s: Settings, parseTime: string -> Option<Int64>, id: string,
                          day: string, clock: string, tail: string, created: Int64)
    requires id !in s.exclusions
    requires 'T' !in day && '.' !in day && 'T' !in clock && '.' !in clock
    requires tail == [] || tail[0] == '.' || tail[0] == 'T'
    requires parseTime(day + " " + clock) == Some(created)
    requires NoOverflow(s.now, created)
    ensures ImageDecision(s, parseTime, id, day + "T" + clock + tail) != Crash
    ensures ImageDecision(s, parseTime, id, day + "T" + clock + tail) == Submit <==> s.now - created > s.delta
    ensures s.now - created == s.delta ==> ImageDecision(s, parseTime, id, day + "T" + clock + tail) == Skip
  {
    NormalizeIsoDate(day, clock, tail);
  }

  /**
   * A rewritten date that does not parse counts as the zero time (year 1), so the image is
   * submitted whenever that instant is more than delta seconds before now.
   */
  lemma UnparsableDateIsZeroTime(s: Settings, parseTime: string -> Option<Int64>, id: string, creationDate: string)
    requires id !in s.exclusions
    requires NormalizeDate(creationDate).Some? && parseTime(NormalizeDate(creationDate).value).None?
    requires NoOverflow(s.now, ZeroTimeUnix)
    ensures ImageDecision(s, parseTime, id, creationDate) == Submit <==> s.now - ZeroTimeUnix > s.delta
  {
  }
}
