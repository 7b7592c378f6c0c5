/** Who/when tuples (`format_who_when`): name, email, seconds since the epoch and UTC offset in seconds. */
module WhoWhen {
  import opened Wrappers
  import opened ByteStrings
  import opened Decimal

  datatype WhoWhen = WhoWhen(name: Bytes, email: Bytes, timestamp: int, offset: int)

  function Abs(x: int): nat {
    if x < 0 then -x else x
  }

  /** Minutes past the hour: what is left of `m / 60` once the whole hours are taken out. */
  lemma MinutesPastHour(m: nat)
    ensures m / 3600 == (m / 60) / 60
    ensures m / 60 - (m / 3600) * 60 == (m / 60) % 60
    ensures 3600 * (m / 3600) + 60 * ((m / 60) % 60) == m - m % 60
  {
    var q := m / 60;
    assert m == 60 * q + m % 60;
    assert q == 60 * (q / 60) + q % 60;
    assert m == 3600 * (q / 60) + (60 * (q % 60) + m % 60);
  }

  /** The `+HHMM` / `-HHMM` rendering of a signed offset in seconds. */
  function FormatOffset(offset: int): (r: Bytes)
    ensures |r| >= 5 && (r[0] == '+' || r[0] == '-')
    ensures r[0] == '-' <==> offset < 0
    ensures AllDigits(r[1..|r| - 2]) && AllDigits(r[|r| - 2..])
    ensures Abs(offset) < 360000 ==> |r| == 5
  {
    var sign := if offset < 0 then '-' else '+';
    var magnitude := Abs(offset);
    var hours := magnitude / 3600;
    MinutesPastHour(magnitude);
    var minutes := magnitude / 60 - hours * 60;
    var hh, mm := TwoDigits(hours), TwoDigits(minutes);
    assert ([sign] + hh + mm)[1..|hh| + 1] == hh;
    assert ([sign] + hh + mm)[|hh| + 1..] == mm;
    [sign] + hh + mm
  }

  lemma FieldSlices(sign: Bytes, hh: Bytes, mm: Bytes)
    requires |sign| == 1 && |mm| == 2
    ensures var r := sign + hh + mm;
            r[1..|r| - 2] == hh && r[|r| - 2..] == mm
  {
  }

  /** The hours field is the whole hours of the magnitude, the minutes field the minutes past the hour. */
  lemma OffsetFields(offset: int)
    ensures var r := FormatOffset(offset);
            DecimalValue(r[1..|r| - 2]) == Abs(offset) / 3600 &&
            DecimalValue(r[|r| - 2..]) == (Abs(offset) / 60) % 60
  {
    var magnitude := Abs(offset);
    MinutesPastHour(magnitude);
    var hours := magnitude / 3600;
    var minutes := magnitude / 60 - hours * 60;
    var sign := if offset < 0 then '-' else '+';
    assert FormatOffset(offset) == [sign] + TwoDigits(hours) + TwoDigits(minutes);
    FieldSlices([sign], TwoDigits(hours), TwoDigits(minutes));
  }

  /** Reads `+HHMM` / `-HHMM` back as seconds; the minutes are the last two digits. */
  function OffsetValue(s: Bytes): Option<int> {
    if |s| < 5 || (s[0] != '+' && s[0] != '-') then None
    else if !AllDigits(s[1..|s| - 2]) || !AllDigits(s[|s| - 2..]) then None
    else
      var magnitude := DecimalValue(s[1..|s| - 2]) * 3600 + DecimalValue(s[|s| - 2..]) * 60;
      Some(if s[0] == '-' then -magnitude else magnitude)
  }

  /** The rendering holds no field or line delimiter. */
  lemma OffsetNoDelimiters(offset: int)
    ensures ' ' !in FormatOffset(offset) && '\n' !in FormatOffset(offset)
  {
    var r := FormatOffset(offset);
    assert r == [r[0]] + r[1..|r| - 2] + r[|r| - 2..];
    DigitsNoDelimiters(r[1..|r| - 2]);
    DigitsNoDelimiters(r[|r| - 2..]);
  }

  /** The reader takes a well-formed sign and the two digit fields as they are. */
  lemma OffsetValueOf(s: Bytes)
    requires |s| >= 5 && (s[0] == '+' || s[0] == '-')
    requires AllDigits(s[1..|s| - 2]) && AllDigits(s[|s| - 2..])
    ensures var magnitude := DecimalValue(s[1..|s| - 2]) * 3600 + DecimalValue(s[|s| - 2..]) * 60;
            OffsetValue(s) == Some(if s[0] == '-' then -magnitude else magnitude)
  {
  }

  /** The magnitude read from the fields, signed, is the offset truncated to whole minutes. */
  lemma SignedFields(offset: int, hours: int, minutes: int)
    requires hours == Abs(offset) / 3600 && minutes == (Abs(offset) / 60) % 60
    ensures var magnitude := hours * 3600 + minutes * 60;
            var whole := Abs(offset) - Abs(offset) % 60;
            (if offset < 0 then -magnitude else magnitude) == (if offset < 0 then -whole else whole)
    ensures var magnitude := hours * 3600 + minutes * 60;
            offset % 60 == 0 ==> (if offset < 0 then -magnitude else magnitude) == offset
  {
    MinutesPastHour(Abs(offset));
    if offset % 60 == 0 {
      WholeMinutes(offset);
    }
  }

  /** Any well-formed offset text whose fields hold the whole hours and the minutes past the hour of
      `offset`, signed as `offset` is, reads back as `offset` truncated to whole minutes. */
  lemma ReadOffsetFields(offset: int, r: Bytes)
    requires |r| >= 5 && (r[0] == '+' || r[0] == '-') && (r[0] == '-' <==> offset < 0)
    requires AllDigits(r[1..|r| - 2]) && AllDigits(r[|r| - 2..])
    requires DecimalValue(r[1..|r| - 2]) == Abs(offset) / 3600
    requires DecimalValue(r[|r| - 2..]) == (Abs(offset) / 60) % 60
    ensures var whole := Abs(offset) - Abs(offset) % 60;
            OffsetValue(r) == Some(if offset < 0 then -whole else whole)
    ensures offset % 60 == 0 ==> OffsetValue(r) == Some(offset)
  {
    OffsetValueOf(r);
    SignedFields(offset, DecimalValue(r[1..|r| - 2]), DecimalValue(r[|r| - 2..]));
  }

  /** Reading the rendering back gives the offset truncated to whole minutes, sign included. */
  lemma OffsetRoundTrip(offset: int)
    ensures var whole := Abs(offset) - Abs(offset) % 60;
            OffsetValue(FormatOffset(offset)) == Some(if offset < 0 then -whole else whole)
    ensures offset % 60 == 0 ==> OffsetValue(FormatOffset(offset)) == Some(offset)
  {
    OffsetFields(offset);
    ReadOffsetFields(offset, FormatOffset(offset));
  }

  lemma WholeMinutes(offset: int)
    requires offset % 60 == 0
    ensures Abs(offset) % 60 == 0
  {
    var k := offset / 60;
    assert offset == 60 * k;
    if offset < 0 {
      assert Abs(offset) == 60 * (-k);
    }
  }

  /** The offset rendering as `format_who_when` is written: `/` is true division, so the hours and
      the minutes are fractions that `%02d` truncates. Exact real division stands in for floating point. */
  function FormatOffsetAsWritten(offset: int): (r: Bytes)
    ensures |r| >= 5 && r[|r| - 2..] == "00"
  {
    var sign := if offset < 0 then '-' else '+';
    var magnitude := Abs(offset) as real;
    var hours := magnitude / 3600.0;
    var minutes := magnitude / 60.0 - hours * 60.0;
    assert minutes == 0.0;
    assert TwoDigits(0) == "00" by {
      assert NatToDecimal(0) == [DigitChar(0)];
    }
    FieldSlices([sign], TwoDigits(hours.Floor), "00");
    [sign] + TwoDigits(hours.Floor) + TwoDigits(minutes.Floor)
  }

  lemma TwoDigitSamples()
    ensures TwoDigits(0) == "00" && TwoDigits(5) == "05" && TwoDigits(30) == "30"
  {
    assert NatToDecimal(0) == [DigitChar(0)];
    assert NatToDecimal(5) == [DigitChar(5)];
    assert NatToDecimal(30) == NatToDecimal(3) + [DigitChar(0)];
    assert NatToDecimal(3) == [DigitChar(3)];
  }

  lemma HalfHourAsWritten()
    ensures FormatOffsetAsWritten(19800) == "+0500"
  {
    assert (19800 as real / 3600.0).Floor == 5;
    TwoDigitSamples();
  }

  lemma HalfHourIntended()
    ensures FormatOffset(19800) == "+0530"
  {
    assert Abs(19800) / 3600 == 5 && Abs(19800) / 60 == 330;
    TwoDigitSamples();
  }

  lemma ReadFiveHours()
    ensures OffsetValue("+0500") == Some(18000)
  {
    OffsetValueOf("+0500");
    assert "+0500"[1..3] == "05" && "+0500"[3..] == "00";
    assert DecimalValue("05") == 5 by {
      assert "05"[..1] == "0";
    }
    assert DecimalValue("00") == 0 by {
      assert "00"[..1] == "0";
    }
  }

  /** An offset of five and a half hours east renders as `+0500` as written, and reads back as five
      hours; the intended rendering is `+0530`, which reads back exactly. */
  lemma HalfHourOffsetAsWritten()
    ensures FormatOffsetAsWritten(19800) == "+0500"
    ensures OffsetValue(FormatOffsetAsWritten(19800)) == Some(18000)
    ensures FormatOffset(19800) == "+0530"
    ensures OffsetValue(FormatOffset(19800)) == Some(19800)
  {
    HalfHourAsWritten();
    ReadFiveHours();
    HalfHourIntended();
    OffsetRoundTrip(19800);
  }

  /** The separator between name and `<email>`: none for an empty name. */
  function Separator(name: Bytes): (sep: Bytes)
    ensures sep == [] <==> name == []
    ensures sep != [] ==> sep == " "
  {
    if name == [] then [] else " "
  }

  /** The fields of a who/when line put together around their delimiters. */
  function Layout(name: Bytes, sep: Bytes, email: Bytes, stamp: Bytes, zone: Bytes): Bytes {
    (name + sep) + "<" + (email + ">" + (" " + (stamp + " " + zone)))
  }

  /** The layout starts with the name, the separator and `<`, and ends with a space and the zone. */
  lemma LayoutShape(name: Bytes, sep: Bytes, email: Bytes, stamp: Bytes, zone: Bytes)
    ensures StartsWith(Layout(name, sep, email, stamp, zone), name + sep + "<")
    ensures EndsWith(Layout(name, sep, email, stamp, zone), " " + zone)
  {
    var tail := email + ">" + (" " + (stamp + " " + zone));
    PrefixSplit(name + sep + "<", tail);
    ConcatAssoc(stamp, " ", zone);
    SuffixSplit(stamp, " " + zone);
    EndsWithConcat(stamp + " " + zone, " " + zone, " ");
    EndsWithConcat(" " + (stamp + " " + zone), " " + zone, email + ">");
    EndsWithConcat(tail, " " + zone, name + sep + "<");
  }

  /** `format_who_when`: `name <email> timestamp ±HHMM`. It starts with the name, then ` <` after a
      non-empty name and `<` alone after an empty one, and ends with a space and the offset. */
  function FormatWhoWhen(w: WhoWhen): (r: Bytes)
    ensures StartsWith(r, w.name + Separator(w.name) + "<")
    ensures EndsWith(r, " " + FormatOffset(w.offset))
  {
    LayoutShape(w.name, Separator(w.name), w.email, IntToDecimal(w.timestamp), FormatOffset(w.offset));
    Layout(w.name, Separator(w.name), w.email, IntToDecimal(w.timestamp), FormatOffset(w.offset))
  }

  lemma LayoutOneLine(name: Bytes, sep: Bytes, email: Bytes, stamp: Bytes, zone: Bytes)
    requires '\n' !in name && '\n' !in sep && '\n' !in email && '\n' !in stamp && '\n' !in zone
    ensures '\n' !in Layout(name, sep, email, stamp, zone)
  {
  }

  /** The rendering stays on one line when the name and the email do. */
  lemma FormatWhoWhenOneLine(w: WhoWhen)
    requires '\n' !in w.name && '\n' !in w.email
    ensures '\n' !in FormatWhoWhen(w)
  {
    IntToDecimalNoDelimiters(w.timestamp);
    OffsetNoDelimiters(w.offset);
    LayoutOneLine(w.name, Separator(w.name), w.email, IntToDecimal(w.timestamp), FormatOffset(w.offset));
  }

  /** Reads `name <email> timestamp ±HHMM` back; the name ends at the first `<`, the email at the next `>`. */
  function ReadWhoWhen(s: Bytes): Option<WhoWhen> {
    var i := IndexOf(s, '<');
    if i == |s| || (i > 0 && s[i - 1] != ' ') then None
    else ReadEmail(if i == 0 then [] else s[..i - 1], s[i + 1..])
  }

  function ReadEmail(name: Bytes, t: Bytes): Option<WhoWhen> {
    var j := IndexOf(t, '>');
    if j + 1 >= |t| || t[j + 1] != ' ' then None else ReadStamp(name, t[..j], t[j + 2..])
  }

  function ReadStamp(name: Bytes, email: Bytes, v: Bytes): Option<WhoWhen> {
    var m := IndexOf(v, ' ');
    if m == |v| then None
    else
      match (SignedValue(v[..m]), OffsetValue(v[m + 1..]))
      case (Some(timestamp), Some(offset)) => Some(WhoWhen(name, email, timestamp, offset))
      case _ => None
  }

  lemma ReadName(name: Bytes, t: Bytes)
    requires '<' !in name
    ensures ReadWhoWhen((name + Separator(name)) + "<" + t) == ReadEmail(name, t)
  {
    var s := (name + Separator(name)) + "<" + t;
    IndexOfConcat(name + Separator(name), '<', t);
    var i := |name + Separator(name)|;
    assert s[i + 1..] == t;
    assert i > 0 ==> s[..i - 1] == name;
  }

  lemma ReadEmailField(name: Bytes, email: Bytes, v: Bytes)
    requires '>' !in email
    ensures ReadEmail(name, email + ">" + (" " + v)) == ReadStamp(name, email, v)
  {
    var t := email + ">" + (" " + v);
    IndexOfConcat(email, '>', " " + v);
    assert t[..|email|] == email;
    assert t[|email| + 2..] == v;
  }

  lemma ReadStampField(name: Bytes, email: Bytes, stamp: Bytes, zone: Bytes, timestamp: int, offset: int)
    requires ' ' !in stamp
    requires SignedValue(stamp) == Some(timestamp) && OffsetValue(zone) == Some(offset)
    ensures ReadStamp(name, email, stamp + " " + zone) == Some(WhoWhen(name, email, timestamp, offset))
  {
    var v := stamp + " " + zone;
    IndexOfConcat(stamp, ' ', zone);
    assert v[..|stamp|] == stamp && v[|stamp| + 1..] == zone;
  }

  lemma ReadLayout(name: Bytes, email: Bytes, stamp: Bytes, zone: Bytes, timestamp: int, offset: int)
    requires '<' !in name && '>' !in email && ' ' !in stamp
    requires SignedValue(stamp) == Some(timestamp) && OffsetValue(zone) == Some(offset)
    ensures ReadWhoWhen(Layout(name, Separator(name), email, stamp, zone)) == Some(WhoWhen(name, email, timestamp, offset))
  {
    ReadName(name, email + ">" + (" " + (stamp + " " + zone)));
    ReadEmailField(name, email, stamp + " " + zone);
    ReadStampField(name, email, stamp, zone, timestamp, offset);
  }

  /** A who/when tuple whose name holds no `<`, whose email holds no `>` and whose offset is in whole
      minutes reads back unchanged, so the rendering loses nothing. */
  lemma WhoWhenRoundTrip(w: WhoWhen)
    requires '<' !in w.name && '>' !in w.email && w.offset % 60 == 0
    ensures ReadWhoWhen(FormatWhoWhen(w)) == Some(w)
  {
    IntToDecimalNoDelimiters(w.timestamp);
    IntRoundTrip(w.timestamp);
    OffsetRoundTrip(w.offset);
    ReadLayout(w.name, w.email, IntToDecimal(w.timestamp), FormatOffset(w.offset), w.timestamp, w.offset);
  }
}
