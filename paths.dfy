/** Path legality and path quoting for file sub-commands (`check_path`, `format_path`). */
module Paths {
  import opened Wrappers
  import opened ByteStrings
  import opened Failures

  /** A path is present, non-empty and does not start with `/`. */
  predicate IsLegalPath(path: Option<Bytes>) {
    path.Some? && path.value != [] && path.value[0] != '/'
  }

  /** `check_path`: the path itself when it is legal, `IllegalPath` otherwise. */
  function CheckPath(path: Option<Bytes>): (r: Result<Bytes, Error>)
    ensures r.Success? <==> IsLegalPath(path)
    ensures r.Success? ==> r.value == path.value
    ensures r.Failure? ==> r.error == IllegalPath(path)
  {
    if path.None? || path.value == [] || path.value[0] == '/' then Failure(IllegalPath(path))
    else Success(path.value)
  }

  /** Every newline byte replaced by the two bytes `\` `n`. */
  function EscapeNewlines(p: Bytes): (r: Bytes)
    ensures '\n' !in r
    ensures '\n' !in p ==> r == p
  {
    if p == [] then []
    else
      assert p == [p[0]] + p[1..];
      (if p[0] == '\n' then "\\n" else [p[0]]) + EscapeNewlines(p[1..])
  }

  /** Each newline grows the path by exactly one byte. */
  lemma {:induction false} EscapeNewlinesLength(p: Bytes)
    ensures |EscapeNewlines(p)| == |p| + multiset(p)['\n']
  {
    if p != [] {
      EscapeNewlinesLength(p[1..]);
      assert p == [p[0]] + p[1..];
      assert multiset(p) == multiset{p[0]} + multiset(p[1..]);
    }
  }

  /** When `format_path` wraps a path in quotes. */
  predicate NeedsQuoting(p: Bytes, quoteSpaces: bool) {
    '\n' in p || (|p| > 0 && p[0] == '"') || (quoteSpaces && ' ' in p)
  }

  /** `format_path(p, quote_spaces)` as written. The replacement template of `re.sub(b'\n', b'\\n', p)`
      has its backslash escapes processed, so each newline is replaced by a newline again: the path is
      quoted when it needs it, and its bytes are kept unchanged. */
  function FormatPathAsWritten(p: Bytes, quoteSpaces: bool, extraSpace: bool): (r: Bytes)
    ensures r == p <==> !NeedsQuoting(p, quoteSpaces)
    ensures NeedsQuoting(p, quoteSpaces) ==>
              |r| >= |p| + 2 && r[0] == '"' && r[1..|p| + 1] == p && r[|p| + 1] == '"'
    ensures '\n' in p ==> '\n' in r
  {
    if NeedsQuoting(p, quoteSpaces) then
      var r := "\"" + p + "\"" + (if extraSpace then " " else "");
      assert r[1..|p| + 1] == p;
      assert '\n' in p ==> exists i :: 0 <= i < |p| && p[i] == '\n' && r[i + 1] == '\n';
      r
    else p
  }

  /** As written, quoting keeps every byte, so different paths always render differently. */
  lemma FormatPathAsWrittenInjective(p: Bytes, q: Bytes, quoteSpaces: bool, extraSpace: bool)
    requires FormatPathAsWritten(p, quoteSpaces, extraSpace) == FormatPathAsWritten(q, quoteSpaces, extraSpace)
    ensures p == q
  {
    var extra: Bytes := if extraSpace then " " else "";
    var r := FormatPathAsWritten(p, quoteSpaces, extraSpace);
    if NeedsQuoting(p, quoteSpaces) && NeedsQuoting(q, quoteSpaces) {
      assert |r| == |p| + 2 + |extra| == |q| + 2 + |extra|;
      assert p == r[1..|p| + 1] == q;
    }
  }

  /** `format_path(p, quote_spaces)` with the newline escape the code evidently intends (each newline
      written as the two bytes `\` `n`), and the legacy extra space after the closing quote as a parameter. */
  function FormatPath(p: Bytes, quoteSpaces: bool, extraSpace: bool): (r: Bytes)
    ensures '\n' !in r
    ensures r == p <==> !NeedsQuoting(p, quoteSpaces)
    ensures NeedsQuoting(p, quoteSpaces) ==>
              r == "\"" + EscapeNewlines(p) + "\"" + (if extraSpace then " " else "")
  {
    var escaped := if '\n' in p then EscapeNewlines(p) else p;
    var quote := if '\n' in p then true else (|p| > 0 && p[0] == '"') || (quoteSpaces && ' ' in p);
    if quote then "\"" + escaped + "\"" + (if extraSpace then " " else "") else escaped
  }

  /** A rendered path starts with its opening quote or with the path's own first byte. */
  lemma FormatPathFirstByte(p: Bytes, quoteSpaces: bool, extraSpace: bool)
    requires p != []
    ensures var r := FormatPath(p, quoteSpaces, extraSpace);
            r != [] && (if NeedsQuoting(p, quoteSpaces) then r[0] == '"' else r[0] == p[0])
  {
  }

  /** The body of a C-style quoted token up to its closing quote, unescaping `\\`, `\"`, `\n` and `\t`:
      the content and what follows the closing quote. */
  function UnquoteBody(s: Bytes): Option<(Bytes, Bytes)>
    decreases |s|
  {
    if s == [] then None
    else if s[0] == '"' then Some(([], s[1..]))
    else if s[0] == '\\' then
      if |s| < 2 || s[1] !in "nt\\\"" then None
      else
        var c := if s[1] == 'n' then '\n' else if s[1] == 't' then '\t' else s[1];
        match UnquoteBody(s[2..])
        case None => None
        case Some((body, rest)) => Some(([c] + body, rest))
    else
      match UnquoteBody(s[1..])
      case None => None
      case Some((body, rest)) => Some(([s[0]] + body, rest))
  }

  /** Reads a quoted path token at the start of `s`. */
  function ReadQuoted(s: Bytes): Option<(Bytes, Bytes)> {
    if s == [] || s[0] != '"' then None else UnquoteBody(s[1..])
  }

  lemma {:induction false} UnquoteEscaped(p: Bytes, rest: Bytes)
    requires '\\' !in p && '"' !in p
    ensures UnquoteBody(EscapeNewlines(p) + ("\"" + rest)) == Some((p, rest))
  {
    if p == [] {
      assert EscapeNewlines(p) + ("\"" + rest) == "\"" + rest;
    } else {
      var e := EscapeNewlines(p[1..]);
      var head: Bytes := if p[0] == '\n' then "\\n" else [p[0]];
      var tail := e + ("\"" + rest);
      UnquoteEscaped(p[1..], rest);
      assert EscapeNewlines(p) == head + e;
      ConcatAssoc(head, e, "\"" + rest);
      var s := head + tail;
      PrefixSplit(head, tail);
      if p[0] == '\n' {
        assert s[0] == '\\' && s[1] == 'n' && s[2..] == tail;
      } else {
        assert s[0] == p[0] && s[1..] == tail;
      }
      assert [p[0]] + p[1..] == p;
    }
  }

  /** A quoted path without backslashes or quotes of its own reads back as the original bytes,
      embedded newlines included; with the legacy option the extra space is left for the reader. */
  lemma QuotedPathReadBack(p: Bytes, quoteSpaces: bool, extraSpace: bool, rest: Bytes)
    requires '\\' !in p && '"' !in p && NeedsQuoting(p, quoteSpaces)
    ensures ReadQuoted(FormatPath(p, quoteSpaces, extraSpace) + rest)
            == Some((p, (if extraSpace then " " else "") + rest))
  {
    var extra: Bytes := if extraSpace then " " else "";
    var e := EscapeNewlines(p);
    var q: Bytes := "\"";
    UnquoteEscaped(p, extra + rest);
    ConcatAssoc((q + e) + q, extra, rest);
    ConcatAssoc(q + e, q, extra + rest);
    ConcatAssoc(q, e, q + (extra + rest));
    PrefixSplit(q, e + (q + (extra + rest)));
  }

  /** The intended escape writes a newline as `\` `n` but escapes neither `\` nor `"`, so two different
      paths can render to the same bytes. */
  lemma FormatPathNotInjective(quoteSpaces: bool, extraSpace: bool)
    ensures var a, b := "\"\n", "\"\\n";
            a != b && FormatPath(a, quoteSpaces, extraSpace) == FormatPath(b, quoteSpaces, extraSpace)
  {
    var a, b := "\"\n", "\"\\n";
    assert a[1] != b[1];
    assert '\n' in a && '\n' !in b;
    assert EscapeNewlines(a) == "\"" + EscapeNewlines("\n");
    assert EscapeNewlines("\n") == "\\n" + EscapeNewlines([]);
  }
}
