/**
 * The video thumbnail of a submission (src/components/submissions/VideoThumbnail.tsx): which
 * of its five faces it shows for the video record it reads, the error it forwards, and the
 * duration badge. The record is the one convex/videos.ts keeps.
 */
module VideoThumbnail {
  import opened Wrappers
  import opened Text
  import opened Store
  import Videos

  /** The state of a useQuery: still loading (undefined), or loaded with the record or null. */
  datatype Query<T> = Loading | Loaded(doc: Option<T>)

  datatype View =
    | Spinner
    | NotFound
    | ProcessingFailed(detail: Option<string>)
    | Processing(caption: string)
    | Thumbnail(url: string, alt: string, badge: Badge)
    | ThumbnailUnavailable

  /**
   * What `{video.duration && (…)}` puts in the corner of the thumbnail: nothing without a
   * duration, the bare text "0" for a duration of 0 (React writes the falsy number itself),
   * and otherwise the badge with the formatted duration.
   */
  datatype Badge = NoBadge | ZeroText | Clock(text: string)

  /** JavaScript truthiness of an optional string: present and not empty. */
  predicate Truthy(s: Option<string>)
  {
    s.Some? && s.value != ""
  }

  function ThumbnailUrl(playbackId: string): string
  {
    "https://image.mux.com/" + playbackId + "/thumbnail.jpg?width=640&height=360&fit_mode=smartcrop"
  }

  /** The face of the component, in the order its branches are tested. */
  function ViewOf(q: Query<Video>, thumbnailError: bool): (r: View)
    ensures r == Spinner <==> q.Loading?
    ensures r == NotFound <==> q == Loaded(None)
    ensures r.ProcessingFailed? <==> q.Loaded? && q.doc.Some? && q.doc.value.status == Videos.Failed
    ensures r.ProcessingFailed? ==> (r.detail.Some? <==> Truthy(q.doc.value.error))
    ensures r.Processing? ==> (r.caption == "Uploading video..." <==> q.doc.value.status == Videos.Uploading)
    ensures r.Thumbnail? ==> r.badge == BadgeOf(q.doc.value.duration)
    ensures r.Thumbnail? ==> (r.alt == "Video thumbnail" <==> !Truthy(q.doc.value.title) || q.doc.value.title == Some("Video thumbnail"))
  {
    if q.Loading? then Spinner
    else if q.doc.None? then NotFound
    else
      var v := q.doc.value;
      if v.status == Videos.Failed then ProcessingFailed(if Truthy(v.error) then v.error else None)
      else if v.status == Videos.Uploading || !Truthy(v.playbackId) then
        Processing(if v.status == Videos.Uploading then "Uploading video..." else "Processing video...")
      else if thumbnailError then ThumbnailUnavailable
      else Thumbnail(ThumbnailUrl(v.playbackId.value),
                     if Truthy(v.title) then v.title.value else "Video thumbnail",
                     BadgeOf(v.duration))
  }

  /**
   * The duration badge: none without a duration, the stray text "0" for 0, a clock that reads
   * back as the duration for a positive one. A negative duration, which nothing rules out,
   * gives "0:00" for a whole number of hours and otherwise a text with minus signs that does
   * not read as a clock.
   */
  function BadgeOf(duration: Option<int>): (r: Badge)
    ensures r.NoBadge? <==> duration.None?
    ensures r.ZeroText? <==> duration == Some(0)
    ensures duration.Some? && duration.value > 0 ==>
              r.Clock? && ReadClock(0, Split(r.text, ':')) == Some(duration.value)
    ensures duration.Some? && duration.value < 0 && duration.value % 3600 == 0 ==> r == Clock("0:00")
    ensures duration.Some? && duration.value < 0 && duration.value % 3600 != 0 ==>
              r.Clock? && r.text != [] && r.text[0] == '-' && ReadClock(0, Split(r.text, ':')).None?
  {
    if duration.None? then NoBadge
    else if duration.value == 0 then ZeroText
    else
      var d := duration.value;
      if d > 0 then
        FormatDurationReadsBack(d);
        Clock(FormatDuration(d))
      else if d % 3600 == 0 then
        WholeNegativeHours(d);
        Clock(FormatDuration(d))
      else
        NegativeDurationText(d);
        Clock(FormatDuration(d))
  }

  /** The thumbnail is shown exactly for a loaded video that is neither failed nor uploading and has a playback id. */
  lemma ThumbnailIff(q: Query<Video>, thumbnailError: bool)
    ensures ViewOf(q, thumbnailError).Thumbnail? <==>
              q.Loaded? && q.doc.Some? && q.doc.value.status != Videos.Failed && q.doc.value.status != Videos.Uploading &&
              Truthy(q.doc.value.playbackId) && !thumbnailError
    ensures ViewOf(q, thumbnailError).Thumbnail? ==>
              ViewOf(q, thumbnailError).url == ThumbnailUrl(q.doc.value.playbackId.value)
  {
  }

  /**
   * Along the life of a record: a new one shows "Uploading video...", one made ready by the
   * webhook shows its thumbnail, and one marked failed shows the failure with its message.
   */
  lemma {:induction false} LifecycleViews(uploadId: string, userId: string, title: Option<string>, circleId: Option<Id>,
                                          now: int, v: Video, playbackId: string, duration: Option<int>,
                                          aspectRatio: Option<string>, error: string)
    requires playbackId != "" && error != ""
    ensures ViewOf(Loaded(Some(Videos.NewVideo(uploadId, userId, title, circleId, now))), false) == Processing("Uploading video...")
    ensures ViewOf(Loaded(Some(Videos.ReadyPatch(v, playbackId, duration, aspectRatio, now))), false).Thumbnail?
    ensures ViewOf(Loaded(Some(Videos.ErrorPatch(v, Some(error), now))), false) == ProcessingFailed(Some(error))
  {
    assert Videos.Ready != Videos.Failed && Videos.Ready != Videos.Uploading;
  }

  /** The effect that calls onError: with the message, when the record failed and carries one. */
  function ErrorNotice(q: Query<Video>): (r: Option<string>)
    ensures r.Some? <==> ViewOf(q, false).ProcessingFailed? && ViewOf(q, false).detail.Some?
    ensures r.Some? ==> r == ViewOf(q, false).detail
  {
    if q.Loaded? && q.doc.Some? && q.doc.value.status == Videos.Failed && Truthy(q.doc.value.error) then q.doc.value.error
    else None
  }

  /** JavaScript's `a % b` for a positive divisor: the remainder takes the sign of a. */
  function JsRem(a: int, b: int): (r: int)
    requires b > 0
    ensures a >= 0 ==> r == a % b
    ensures a < 0 ==> -b < r <= 0
  {
    if a >= 0 then a % b else -((-a) % b)
  }

  /** formatDuration(seconds): H:MM:SS from an hour on, else M:SS. */
  function FormatDuration(seconds: int): string
  {
    Join(ClockParts(seconds), ':')
  }

  /**
   * The colon-separated groups of formatDuration: hours only when there is at least one.
   * Math.floor of a quotient by a positive divisor is Dafny's `/`.
   */
  function ClockParts(seconds: int): (r: seq<string>)
    ensures 2 <= |r| <= 3
    ensures seconds >= 0 ==> forall i :: 0 <= i < |r| ==> r[i] != [] && AllDigits(r[i])
  {
    var hours := seconds / 3600;
    var minutes := JsRem(seconds, 3600) / 60;
    var secs := JsRem(seconds, 60);
    var parts := if hours > 0 then [IntToString(hours), PadStart2(IntToString(minutes)), PadStart2(IntToString(secs))]
                 else [IntToString(minutes), PadStart2(IntToString(secs))];
    assert seconds >= 0 ==> forall i :: 0 <= i < |parts| ==> parts[i] != [] && AllDigits(parts[i]) by {
      if seconds >= 0 {
        PaddedValue(minutes);
        PaddedValue(secs);
      }
    }
    parts
  }

  /** A negative number is a whole number of hours exactly when its opposite is. */
  lemma NegativeRemainder(d: int)
    requires d < 0
    ensures d % 3600 == 0 <==> (-d) % 3600 == 0
  {
  }

  /** A negative whole number of hours formats as "0:00": both remainders are (negative) zero. */
  lemma WholeNegativeHours(d: int)
    requires d < 0 && d % 3600 == 0
    ensures FormatDuration(d) == "0:00"
  {
    NegativeRemainder(d);
    assert JsRem(d, 3600) == 0;
    assert (-d) % 60 == 0 by {
      assert -d == ((-d) / 3600) * 3600;
      assert -d == ((-d) / 3600 * 60) * 60;
    }
    assert JsRem(d, 60) == 0;
    assert d / 3600 < 0;
    assert IntToString(0) == "0";
    assert PadStart2("0") == "00";
    assert ClockParts(d) == ["0", "00"];
    assert Join(["0", "00"], ':') == "0" + [':'] + Join(["00"], ':');
  }

  /**
   * Any other negative duration formats with a negative count of minutes in front, so its
   * first group is not made of digits.
   */
  lemma NegativeDurationText(d: int)
    requires d < 0 && d % 3600 != 0
    ensures FormatDuration(d) != [] && FormatDuration(d)[0] == '-'
    ensures ReadClock(0, Split(FormatDuration(d), ':')).None?
  {
    var m := NegativeMinutesFirst(d);
    var first := "-" + NatToString(m);
    var rest := PadStart2(IntToString(JsRem(d, 60)));
    assert ':' !in first by {
      NoColon(NatToString(m));
    }
    SplitAt(first, ':', rest);
    assert !IsDigit(first[0]);
  }

  /** Such a duration has fewer than one hour of (negative) minutes, written first with their sign. */
  lemma NegativeMinutesFirst(d: int) returns (m: nat)
    requires d < 0 && d % 3600 != 0
    ensures FormatDuration(d) == "-" + NatToString(m) + [':'] + PadStart2(IntToString(JsRem(d, 60)))
  {
    NegativeRemainder(d);
    var minutes := JsRem(d, 3600) / 60;
    assert minutes < 0 && d / 3600 < 0;
    m := -minutes;
    var first := IntToString(minutes);
    var rest := PadStart2(IntToString(JsRem(d, 60)));
    assert first == "-" + NatToString(m);
    assert ClockParts(d) == [first, rest];
    assert [first, rest][1..] == [rest];
    assert Join([first, rest], ':') == first + [':'] + Join([rest], ':');
  }

  /** Reading a clock text back: colon-separated digit groups, each worth sixty of the next. */
  function ReadClock(acc: int, parts: seq<string>): Option<int>
    decreases |parts|
  {
    if parts == [] then Some(acc)
    else if parts[0] == [] || !AllDigits(parts[0]) then None
    else ReadClock(acc * 60 + DigitsValue(parts[0]), parts[1..])
  }

  /** The duration text reads back as the number of seconds it was made from. */
  lemma FormatDurationReadsBack(seconds: nat)
    ensures ReadClock(0, Split(FormatDuration(seconds), ':')) == Some(seconds)
  {
    SplitDigitGroups(ClockParts(seconds));
    ReadClockParts(seconds);
  }

  lemma ReadClockParts(seconds: nat)
    ensures ReadClock(0, ClockParts(seconds)) == Some(seconds)
  {
    var hours, minutes, secs := seconds / 3600, (seconds % 3600) / 60, seconds % 60;
    assert ClockParts(seconds) == if hours > 0 then [NatToString(hours), PadStart2(NatToString(minutes)), PadStart2(NatToString(secs))]
                                  else [NatToString(minutes), PadStart2(NatToString(secs))];
    HoursMinutesSeconds(seconds);
    ReadClockGroups(hours, minutes, secs);
  }

  /** The groups of hours, minutes and seconds read back as the seconds they amount to. */
  lemma ReadClockGroups(hours: nat, minutes: nat, secs: nat)
    requires minutes < 60 && secs < 60
    ensures var parts := if hours > 0 then [NatToString(hours), PadStart2(NatToString(minutes)), PadStart2(NatToString(secs))]
                         else [NatToString(minutes), PadStart2(NatToString(secs))];
            ReadClock(0, parts) == Some(if hours > 0 then (hours * 60 + minutes) * 60 + secs else minutes * 60 + secs)
  {
    PaddedValue(minutes);
    PaddedValue(secs);
    if hours > 0 {
      DigitsValueOfNatToString(hours);
      ReadThree(NatToString(hours), PadStart2(NatToString(minutes)), PadStart2(NatToString(secs)), hours, minutes, secs);
    } else {
      DigitsValueOfNatToString(minutes);
      ReadTwo(NatToString(minutes), PadStart2(NatToString(secs)), minutes, secs);
    }
  }

  /** Two digit groups read as the first carried sixty times into the second. */
  lemma ReadTwo(a: string, b: string, x: int, y: int)
    requires a != [] && AllDigits(a) && DigitsValue(a) == x
    requires b != [] && AllDigits(b) && DigitsValue(b) == y
    ensures ReadClock(0, [a, b]) == Some(x * 60 + y)
  {
    ClockStep(0, [a, b]);
    assert [a, b][1..] == [b];
    ClockStep(x, [b]);
    assert [b][1..] == [];
  }

  /** Three digit groups read as hours, minutes and seconds. */
  lemma ReadThree(a: string, b: string, c: string, x: int, y: int, z: int)
    requires a != [] && AllDigits(a) && DigitsValue(a) == x
    requires b != [] && AllDigits(b) && DigitsValue(b) == y
    requires c != [] && AllDigits(c) && DigitsValue(c) == z
    ensures ReadClock(0, [a, b, c]) == Some((x * 60 + y) * 60 + z)
  {
    ClockStep(0, [a, b, c]);
    assert [a, b, c][1..] == [b, c];
    ClockStep(x, [b, c]);
    assert [b, c][1..] == [c];
    ClockStep(x * 60 + y, [c]);
    assert [c][1..] == [];
  }

  lemma HoursMinutesSeconds(seconds: nat)
    ensures (seconds % 3600) / 60 < 60
    ensures ((seconds / 3600) * 60 + (seconds % 3600) / 60) * 60 + seconds % 60 == seconds
    ensures seconds / 3600 == 0 ==> ((seconds % 3600) / 60) * 60 + seconds % 60 == seconds
  {
    var r := seconds % 3600;
    assert seconds == (seconds / 3600) * 3600 + r;
    assert r == (r / 60) * 60 + r % 60;
    assert r % 60 == seconds % 60;
  }

  /** Digit groups joined by colons split back into the groups. */
  lemma SplitDigitGroups(parts: seq<string>)
    requires |parts| >= 1 && forall i :: 0 <= i < |parts| ==> AllDigits(parts[i])
    ensures Split(Join(parts, ':'), ':') == parts
  {
    forall i | 0 <= i < |parts|
      ensures ':' !in parts[i]
    {
      NoColon(parts[i]);
    }
    SplitJoin(parts, ':');
  }

  lemma ClockStep(acc: int, parts: seq<string>)
    requires parts != [] && parts[0] != [] && AllDigits(parts[0])
    ensures ReadClock(acc, parts) == ReadClock(acc * 60 + DigitsValue(parts[0]), parts[1..])
  {
  }

  lemma NoColon(d: string)
    requires AllDigits(d)
    ensures ':' !in d
  {
    forall i | 0 <= i < |d|
      ensures d[i] != ':'
    {
      assert IsDigit(d[i]);
    }
  }
}
