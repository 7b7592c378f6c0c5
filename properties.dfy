/** Commit properties: the rendering of one property (`format_property`) and the sorted order in
    which a commit emits them (`sorted(self.properties)`). */
module Properties {
  import opened Wrappers
  import opened ByteStrings
  import opened Decimal
  import Utf8

  /** Python's ordering of `str` values: character by character, a proper prefix first. */
  predicate LessEq(a: string, b: string) {
    a == [] || (b != [] && (a[0] < b[0] || (a[0] == b[0] && LessEq(a[1..], b[1..]))))
  }

  lemma {:induction false} LessEqAntisymmetric(a: string, b: string)
    requires LessEq(a, b) && LessEq(b, a)
    ensures a == b
  {
    if a != [] && b != [] {
      LessEqAntisymmetric(a[1..], b[1..]);
      assert a == [a[0]] + a[1..] && b == [b[0]] + b[1..];
    }
  }

  lemma {:induction false} LessEqTransitive(a: string, b: string, c: string)
    requires LessEq(a, b) && LessEq(b, c)
    ensures LessEq(a, c)
  {
    if a != [] && a[0] == b[0] && b[0] == c[0] {
      LessEqTransitive(a[1..], b[1..], c[1..]);
    }
  }

  lemma {:induction false} LessEqTotal(a: string, b: string)
    ensures LessEq(a, b) || LessEq(b, a)
  {
    if a != [] && b != [] && a[0] == b[0] {
      LessEqTotal(a[1..], b[1..]);
    }
  }

  /** `k` comes first among `keys`. */
  predicate IsLeast(k: string, keys: set<string>) {
    k in keys && forall j :: j in keys ==> LessEq(k, j)
  }

  lemma {:induction false} LeastExists(keys: set<string>)
    requires keys != {}
    ensures exists k :: IsLeast(k, keys)
    decreases |keys|
  {
    var x :| x in keys;
    if keys != {x} {
      var rest := keys - {x};
      LeastExists(rest);
      var y :| IsLeast(y, rest);
      LessEqTotal(x, y);
      if LessEq(x, y) {
        forall j | j in keys ensures LessEq(x, j) {
          if j != x {
            LessEqTransitive(x, y, j);
          } else {
            LessEqTotal(x, x);
          }
        }
        assert IsLeast(x, keys);
      } else {
        assert IsLeast(y, keys);
      }
    } else {
      LessEqTotal(x, x);
      assert IsLeast(x, keys);
    }
  }

  lemma LeastUnique(keys: set<string>)
    ensures forall a, b :: IsLeast(a, keys) && IsLeast(b, keys) ==> a == b
  {
    forall a, b | IsLeast(a, keys) && IsLeast(b, keys) ensures a == b {
      LessEqAntisymmetric(a, b);
    }
  }

  /** Strictly increasing in Python's ordering, hence without duplicates. */
  predicate StrictlyIncreasing(r: seq<string>) {
    forall i, j :: 0 <= i < j < |r| ==> LessEq(r[i], r[j]) && r[i] != r[j]
  }

  /** `r` lists exactly the elements of `keys`. */
  predicate Enumerates(r: seq<string>, keys: set<string>) {
    (forall i :: 0 <= i < |r| ==> r[i] in keys) && (forall k :: k in keys ==> k in r)
  }

  lemma InFrontIncreasing(k: string, rest: seq<string>, keys: set<string>)
    requires IsLeast(k, keys) && Enumerates(rest, keys - {k}) && StrictlyIncreasing(rest)
    ensures StrictlyIncreasing([k] + rest)
  {
    var r := [k] + rest;
    forall i, j | 0 <= i < j < |r| ensures LessEq(r[i], r[j]) && r[i] != r[j] {
      assert r[j] == rest[j - 1] && rest[j - 1] in keys - {k};
      if i > 0 {
        assert r[i] == rest[i - 1];
      }
    }
  }

  lemma InFrontEnumerates(k: string, rest: seq<string>, keys: set<string>)
    requires k in keys && Enumerates(rest, keys - {k})
    ensures Enumerates([k] + rest, keys)
  {
    var r := [k] + rest;
    forall x | x in keys ensures x in r {
      if x != k {
        assert x in keys - {k};
        var m :| 0 <= m < |rest| && rest[m] == x;
        assert r[m + 1] == x;
      }
    }
    forall i | 0 <= i < |r| ensures r[i] in keys {
      if i > 0 {
        assert r[i] == rest[i - 1];
      }
    }
  }

  /** Putting the least key in front of a strictly increasing enumeration of the others enumerates
      all of them, still strictly increasing. */
  lemma LeastInFront(k: string, rest: seq<string>, keys: set<string>)
    requires IsLeast(k, keys)
    requires |rest| == |keys - {k}| && Enumerates(rest, keys - {k}) && StrictlyIncreasing(rest)
    ensures |[k] + rest| == |keys| && Enumerates([k] + rest, keys) && StrictlyIncreasing([k] + rest)
  {
    assert |keys - {k}| == |keys| - 1;
    InFrontIncreasing(k, rest, keys);
    InFrontEnumerates(k, rest, keys);
  }

  /** `sorted(keys)`: every key once, in increasing order. */
  function SortedKeys(keys: set<string>): (r: seq<string>)
    ensures |r| == |keys|
    ensures Enumerates(r, keys)
    ensures StrictlyIncreasing(r)
    decreases |keys|
  {
    if keys == {} then []
    else
      LeastExists(keys);
      LeastUnique(keys);
      var k :| IsLeast(k, keys);
      var rest := SortedKeys(keys - {k});
      LeastInFront(k, rest, keys);
      [k] + rest
  }

  /** The sorted order is the least key followed by the sorted order of the others. */
  lemma SortedKeysHead(keys: set<string>)
    requires keys != {}
    ensures var s := SortedKeys(keys);
            s != [] && s == [s[0]] + SortedKeys(keys - {s[0]})
  {
  }

  /** The head of a strictly increasing enumeration is the least key. */
  lemma FirstIsLeast(r: seq<string>, keys: set<string>)
    requires StrictlyIncreasing(r) && Enumerates(r, keys) && r != []
    ensures IsLeast(r[0], keys)
  {
    forall j | j in keys ensures LessEq(r[0], j) {
      var m :| 0 <= m < |r| && r[m] == j;
      if m == 0 {
        LessEqTotal(j, j);
      }
    }
  }

  /** Dropping the head leaves a strictly increasing enumeration of the other keys. */
  lemma TailEnumerates(r: seq<string>, keys: set<string>)
    requires StrictlyIncreasing(r) && Enumerates(r, keys) && r != []
    ensures StrictlyIncreasing(r[1..]) && Enumerates(r[1..], keys - {r[0]})
  {
    forall j | j in keys - {r[0]} ensures j in r[1..] {
      var m :| 0 <= m < |r| && r[m] == j;
      assert r[1..][m - 1] == j;
    }
  }

  /** The sorted order is the only strictly increasing enumeration of the keys, so it depends on the
      set of keys alone and not on the order in which they were inserted. */
  lemma {:induction false} SortedKeysUnique(keys: set<string>, r: seq<string>)
    requires StrictlyIncreasing(r) && Enumerates(r, keys)
    ensures r == SortedKeys(keys)
    decreases |keys|
  {
    if keys == {} {
      assert r == [];
    } else {
      var s := SortedKeys(keys);
      var k :| k in keys;
      assert k in r;
      FirstIsLeast(r, keys);
      FirstIsLeast(s, keys);
      LeastUnique(keys);
      SortedKeysHead(keys);
      TailEnumerates(r, keys);
      SortedKeysUnique(keys - {r[0]}, r[1..]);
      assert r == [r[0]] + r[1..];
    }
  }

  lemma PropertyShape(name: Bytes, length: Bytes, value: Bytes)
    ensures var r := "property " + name + (" " + length + " ") + value;
            r == "property " + (name + " " + (length + " " + value)) &&
            r[..9] == "property " && r[|r| - |value|..] == value
  {
  }

  /** `format_property(name, value)`: `property <name>` or `property <name> <len> <value>`,
      where `<len>` counts the bytes of the UTF-8 value. The line starts with `property `; the name
      alone follows without a value, and with one the line ends with the value's bytes. */
  function FormatProperty(name: string, value: Option<string>): (r: Bytes)
    ensures |r| >= 9 && r[..9] == "property "
    ensures value.None? ==> r[9..] == Utf8.Encode(name)
    ensures value.Some? ==> |r| >= |Utf8.Encode(value.value)| &&
                            r[|r| - |Utf8.Encode(value.value)|..] == Utf8.Encode(value.value)
  {
    var utf8Name := Utf8.Encode(name);
    if value.Some? then
      var utf8Value := Utf8.Encode(value.value);
      PropertyShape(utf8Name, NatToDecimal(|utf8Value|), utf8Value);
      "property " + utf8Name + (" " + NatToDecimal(|utf8Value|) + " ") + utf8Value
    else
      "property " + utf8Name
  }

  /** Reads a property line back: the name runs to the first space; then the length and exactly that many
      bytes of value. */
  function ReadProperty(s: Bytes): Option<(string, Option<string>)> {
    if |s| < 9 || s[..9] != "property " then None
    else
      var rest := s[9..];
      var i := IndexOf(rest, ' ');
      if i == |rest| then
        match Utf8.Decode(rest)
        case Some(name) => Some((name, None))
        case None => None
      else ReadPropertyValue(rest[..i], rest[i + 1..])
  }

  function ReadPropertyValue(name: Bytes, t: Bytes): Option<(string, Option<string>)> {
    var j := IndexOf(t, ' ');
    if j == |t| || !AllDigits(t[..j]) || |t[j + 1..]| != DecimalValue(t[..j]) then None
    else
      match (Utf8.Decode(name), Utf8.Decode(t[j + 1..]))
      case (Some(n), Some(v)) => Some((n, Some(v)))
      case _ => None
  }

  lemma ReadLength(name: Bytes, value: Bytes)
    ensures ReadPropertyValue(name, NatToDecimal(|value|) + " " + value)
            == match (Utf8.Decode(name), Utf8.Decode(value))
               case (Some(n), Some(v)) => Some((n, Some(v)))
               case _ => None
  {
    var d := NatToDecimal(|value|);
    DigitsNoDelimiters(d);
    IndexOfConcat(d, ' ', value);
    var t := d + " " + value;
    assert t[..|d|] == d && t[|d| + 1..] == value;
    DecimalRoundTrip(|value|);
  }

  lemma ReadName(name: Bytes, tail: Bytes)
    requires ' ' !in name
    ensures ReadProperty("property " + (name + " " + tail)) == ReadPropertyValue(name, tail)
  {
    var s := "property " + (name + " " + tail);
    assert s[..9] == "property " && s[9..] == name + " " + tail;
    IndexOfConcat(name, ' ', tail);
    assert (name + " " + tail)[..|name|] == name && (name + " " + tail)[|name| + 1..] == tail;
  }

  /** A property whose name holds no space reads back as the same name and value. */
  lemma PropertyRoundTrip(name: string, value: Option<string>)
    requires ' ' !in name
    ensures ReadProperty(FormatProperty(name, value)) == Some((name, value))
  {
    var n := Utf8.Encode(name);
    Utf8.EncodeKeepsAsciiAbsent(name, ' ');
    Utf8.DecodeEncode(name);
    if value.Some? {
      var v := Utf8.Encode(value.value);
      PropertyShape(n, NatToDecimal(|v|), v);
      ReadName(n, NatToDecimal(|v|) + " " + v);
      Utf8.DecodeEncode(value.value);
      ReadLength(n, v);
    } else {
      var s := FormatProperty(name, value);
      assert s[9..] == n;
    }
  }
}
