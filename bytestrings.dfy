/** Byte strings and the small sequence utilities the serializer and its readers share. */
module ByteStrings {

  /** A byte string: every element of a real byte string is below 256. */
  type Bytes = seq<char>

  predicate IsByte(c: char) {
    c as int < 256
  }

  predicate IsByteString(s: seq<char>) {
    forall i :: 0 <= i < |s| ==> IsByte(s[i])
  }

  /** `b"".join(parts)` */
  function Concat(parts: seq<Bytes>): (r: Bytes)
    ensures parts == [] ==> r == []
  {
    if parts == [] then [] else Concat(parts[..|parts| - 1]) + parts[|parts| - 1]
  }

  /** `s` begins with `p` */
  predicate StartsWith(s: Bytes, p: Bytes) {
    |p| <= |s| && s[..|p|] == p
  }

  lemma PrefixSplit(a: Bytes, b: Bytes)
    ensures StartsWith(a + b, a) && (a + b)[|a|..] == b
  {
  }

  lemma StartsWithConcat(s: Bytes, p: Bytes, t: Bytes)
    requires StartsWith(s, p)
    ensures StartsWith(s + t, p)
  {
    assert (s + t)[..|p|] == s[..|p|];
  }

  lemma StartsWithShorter(s: Bytes, p: Bytes, q: Bytes)
    requires StartsWith(s, p + q)
    ensures StartsWith(s, p)
  {
    assert s[..|p|] == (p + q)[..|p|];
  }

  /** `s` ends with `p` */
  predicate EndsWith(s: Bytes, p: Bytes) {
    |p| <= |s| && s[|s| - |p|..] == p
  }

  lemma SuffixSplit(a: Bytes, b: Bytes)
    ensures EndsWith(a + b, b)
  {
    assert (a + b)[|a|..] == b;
  }

  lemma EndsWithConcat(s: Bytes, p: Bytes, t: Bytes)
    requires EndsWith(s, p)
    ensures EndsWith(t + s, p)
  {
    assert (t + s)[|t + s| - |p|..] == s[|s| - |p|..];
  }

  lemma ConcatAssoc(a: Bytes, b: Bytes, c: Bytes)
    ensures a + (b + c) == (a + b) + c
  {
  }

  lemma ConcatSnoc(parts: seq<Bytes>, last: Bytes)
    ensures Concat(parts + [last]) == Concat(parts) + last
  {
    assert (parts + [last])[..|parts|] == parts;
  }

  /** The index of the first occurrence of `c` in `s`, or `|s|` if there is none. */
  function IndexOf(s: seq<char>, c: char): (i: nat)
    ensures i <= |s|
    ensures i < |s| ==> s[i] == c
    ensures forall j :: 0 <= j < i ==> s[j] != c
  {
    if s == [] then 0 else if s[0] == c then 0 else 1 + IndexOf(s[1..], c)
  }

  lemma {:induction false} IndexOfConcat(a: seq<char>, c: char, b: seq<char>)
    requires c !in a
    ensures IndexOf(a + [c] + b, c) == |a|
  {
    if a != [] {
      assert (a + [c] + b)[1..] == a[1..] + [c] + b;
      IndexOfConcat(a[1..], c, b);
    }
  }

  /** Splitting at the newline bytes, as a line reader sees its input. */
  function SplitLines(s: Bytes): (lines: seq<Bytes>)
    ensures |lines| >= 1
    decreases |s|
  {
    var i := IndexOf(s, '\n');
    if i == |s| then [s] else [s[..i]] + SplitLines(s[i + 1..])
  }

  lemma SplitLinesJoin(a: Bytes, b: Bytes)
    requires '\n' !in a
    ensures SplitLines(a + "\n" + b) == [a] + SplitLines(b)
  {
    IndexOfConcat(a, '\n', b);
    assert (a + "\n" + b)[..|a|] == a;
    assert (a + "\n" + b)[|a| + 1..] == b;
  }

  lemma SplitLinesJoinRight(a: Bytes, b: Bytes)
    requires '\n' !in a
    ensures SplitLines(a + ("\n" + b)) == [a] + SplitLines(b)
  {
    ConcatAssoc(a, "\n", b);
    SplitLinesJoin(a, b);
  }

  lemma SplitLinesSingle(a: Bytes)
    requires '\n' !in a
    ensures SplitLines(a) == [a]
  {
  }

  /** `b"\n".join(lines)` */
  function JoinLines(lines: seq<Bytes>): Bytes {
    if lines == [] then []
    else if |lines| == 1 then lines[0]
    else lines[0] + "\n" + JoinLines(lines[1..])
  }

  predicate NoNewlines(lines: seq<Bytes>) {
    forall i :: 0 <= i < |lines| ==> '\n' !in lines[i]
  }

  /** Splitting undoes joining, as long as no line holds a newline of its own. */
  lemma {:induction false} SplitJoinLines(lines: seq<Bytes>)
    requires lines != [] && NoNewlines(lines)
    ensures SplitLines(JoinLines(lines)) == lines
  {
    if |lines| == 1 {
      SplitLinesSingle(lines[0]);
      assert [lines[0]] == lines;
    } else {
      assert '\n' !in lines[0];
      SplitLinesJoin(lines[0], JoinLines(lines[1..]));
      assert NoNewlines(lines[1..]) by {
        forall i | 0 <= i < |lines[1..]| ensures '\n' !in lines[1..][i] {
          assert lines[1..][i] == lines[i + 1];
        }
      }
      SplitJoinLines(lines[1..]);
      assert [lines[0]] + lines[1..] == lines;
    }
  }

  lemma {:induction false} JoinLinesSnoc(lines: seq<Bytes>, last: Bytes)
    requires lines != []
    ensures JoinLines(lines + [last]) == JoinLines(lines) + "\n" + last
  {
    var all := lines + [last];
    assert all[0] == lines[0] && all[1..] == lines[1..] + [last];
    if |lines| == 1 {
      assert all == [lines[0], last];
      assert all[1..] == [last];
    } else {
      JoinLinesSnoc(lines[1..], last);
      ConcatAssoc(lines[0] + "\n", JoinLines(lines[1..]) + "\n", last);
      ConcatAssoc(lines[0] + "\n", JoinLines(lines[1..]), "\n");
    }
  }

  /** `b"".join(line + b"\n" for line in lines)`: every line followed by a newline. */
  function Terminated(lines: seq<Bytes>): Bytes {
    if lines == [] then [] else Terminated(lines[..|lines| - 1]) + lines[|lines| - 1] + "\n"
  }

  lemma {:induction false} TerminatedIsJoined(lines: seq<Bytes>)
    ensures Terminated(lines) == JoinLines(lines + [[]])
  {
    if lines != [] {
      var init, last := lines[..|lines| - 1], lines[|lines| - 1];
      TerminatedIsJoined(init);
      assert lines == init + [last];
      JoinLinesSnoc(lines, []);
      if init == [] {
        assert JoinLines(lines) == last;
      } else {
        JoinLinesSnoc(init, last);
        JoinLinesSnoc(init, []);
        ConcatAssoc(JoinLines(init) + "\n", last, "\n");
      }
    }
  }

  /** A line reader sees the lines of a newline-terminated text, then the empty rest after the last one. */
  lemma SplitTerminated(lines: seq<Bytes>)
    requires NoNewlines(lines)
    ensures SplitLines(Terminated(lines)) == lines + [[]]
  {
    TerminatedIsJoined(lines);
    var all := lines + [[]];
    assert NoNewlines(all) by {
      forall i | 0 <= i < |all| ensures '\n' !in all[i] {
        if i < |lines| { assert all[i] == lines[i]; }
      }
    }
    SplitJoinLines(all);
  }

  lemma TerminatedOne(line: Bytes)
    ensures Terminated([line]) == line + "\n"
  {
    assert [line][..0] == [];
  }

  /** Terminating two runs of lines is terminating them one after the other. */
  lemma {:induction false} TerminatedConcat(a: seq<Bytes>, b: seq<Bytes>)
    ensures Terminated(a + b) == Terminated(a) + Terminated(b)
  {
    if b == [] {
      assert a + b == a;
    } else {
      var init, last := b[..|b| - 1], b[|b| - 1];
      TerminatedConcat(a, init);
      assert (a + b)[..|a + b| - 1] == a + init;
      ConcatAssoc(Terminated(a), Terminated(init), last);
      ConcatAssoc(Terminated(a), Terminated(init) + last, "\n");
    }
  }

  lemma TerminatedCons(first: Bytes, others: seq<Bytes>)
    ensures Terminated([first] + others) == first + "\n" + Terminated(others)
  {
    TerminatedConcat([first], others);
    TerminatedOne(first);
  }

  lemma SplitAfterLine(first: Bytes, rest: Bytes, restLines: seq<Bytes>)
    requires '\n' !in first && SplitLines(rest) == restLines
    ensures SplitLines(first + "\n" + rest) == [first] + restLines
  {
    SplitLinesJoin(first, rest);
  }

  lemma NoNewlinesTail(lines: seq<Bytes>)
    requires lines != [] && NoNewlines(lines)
    ensures '\n' !in lines[0] && NoNewlines(lines[1..])
  {
    forall i | 0 <= i < |lines[1..]| ensures '\n' !in lines[1..][i] {
      assert lines[1..][i] == lines[i + 1];
    }
  }

  lemma TerminatedThenStep(first: Bytes, others: seq<Bytes>, rest: Bytes)
    ensures Terminated([first] + others) + rest == first + "\n" + (Terminated(others) + rest)
  {
    TerminatedCons(first, others);
    ConcatAssoc(first + "\n", Terminated(others), rest);
  }

  /** A line reader takes the newline-terminated lines off the front of a text one by one, then goes on
      with what follows them. */
  lemma {:induction false} SplitTerminatedThen(lines: seq<Bytes>, rest: Bytes)
    requires NoNewlines(lines)
    ensures SplitLines(Terminated(lines) + rest) == lines + SplitLines(rest)
  {
    if lines == [] {
      assert Terminated(lines) + rest == rest;
    } else {
      var first, others := lines[0], lines[1..];
      NoNewlinesTail(lines);
      SplitTerminatedThen(others, rest);
      TerminatedThenStep(first, others, rest);
      assert lines == [first] + others;
      SplitAfterLine(first, Terminated(others) + rest, others + SplitLines(rest));
      assert [first] + (others + SplitLines(rest)) == lines + SplitLines(rest);
    }
  }

}
