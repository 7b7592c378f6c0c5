/** The exact-length data section `data <N>\n<bytes>`, the only form the serializer emits. */
module DataSections {
  import opened Wrappers
  import opened ByteStrings
  import opened Decimal

  /** `("data %d\n" % len(payload)) + payload` */
  function DataSection(payload: Bytes): (r: Bytes)
    ensures |r| > |payload| && r[|r| - |payload|..] == payload
  {
    var header := "data " + NatToDecimal(|payload|) + "\n";
    assert (header + payload)[|header|..] == payload;
    header + payload
  }

  /** Reads an exact-length data section at the start of `s`: the payload and what follows it. */
  function ReadDataSection(s: Bytes): Option<(Bytes, Bytes)> {
    if |s| < 5 || s[..5] != "data " then None
    else
      var t := s[5..];
      var i := IndexOf(t, '\n');
      if i == 0 || i == |t| || !AllDigits(t[..i]) then None
      else
        var n := DecimalValue(t[..i]);
        var body := t[i + 1..];
        if |body| < n then None else Some((body[..n], body[n..]))
  }

  /** The declared length is exactly the payload's, so a reader takes the payload back unchanged and
      leaves whatever follows it for the next read. */
  lemma DataSectionReadBack(payload: Bytes, rest: Bytes)
    ensures ReadDataSection(DataSection(payload) + rest) == Some((payload, rest))
  {
    var d := NatToDecimal(|payload|);
    var s := DataSection(payload) + rest;
    assert s == "data " + (d + "\n" + (payload + rest));
    assert s[..5] == "data " && s[5..] == d + "\n" + (payload + rest);
    DigitsNoDelimiters(d);
    IndexOfConcat(d, '\n', payload + rest);
    var t := d + "\n" + (payload + rest);
    assert t[..|d|] == d && t[|d| + 1..] == payload + rest;
    DecimalRoundTrip(|payload|);
    assert (payload + rest)[..|payload|] == payload && (payload + rest)[|payload|..] == rest;
  }
}
