/** File sub-commands of a commit (`M`, `D`, `C`, `R`, `deleteall`): construction with path checks,
    tree-mode formatting and rendering to wire bytes. */
module FileCommands {
  import opened Wrappers
  import opened ByteStrings
  import opened Failures
  import opened Decimal
  import opened Paths
  import opened DataSections

  datatype FileCommand =
    | Modify(path: Bytes, mode: nat, dataref: Option<Bytes>, data: Option<Bytes>)
    | Delete(path: Bytes)
    | Copy(srcPath: Bytes, destPath: Bytes)
    | Rename(oldPath: Bytes, newPath: Bytes)
    | DeleteAll

  /** The legacy quoting work-around for old git versions, switched off. */
  const NeedsExtraSpaceAfterQuote := false

  // Tree modes, written in octal in the stream.
  const RegularMode: nat := 0x1A4         // 0o644
  const RegularFileMode: nat := 0x81A4    // 0o100644
  const ExecutableMode: nat := 0x1ED      // 0o755
  const ExecutableFileMode: nat := 0x81ED // 0o100755
  const DirectoryMode: nat := 0x4000      // 0o40000
  const SymlinkMode: nat := 0xA000        // 0o120000
  const GitlinkMode: nat := 0xE000        // 0o160000

  /** Every path a file sub-command holds is legal. */
  predicate ValidFileCommand(fc: FileCommand) {
    match fc
    case Modify(path, _, _, _) => IsLegalPath(Some(path))
    case Delete(path) => IsLegalPath(Some(path))
    case Copy(src, dest) => IsLegalPath(Some(src)) && IsLegalPath(Some(dest))
    case Rename(oldPath, newPath) => IsLegalPath(Some(oldPath)) && IsLegalPath(Some(newPath))
    case DeleteAll => true
  }

  /** `FileModifyCommand(path, mode, dataref, data)`: fails on an illegal path. */
  function NewModify(path: Option<Bytes>, mode: nat, dataref: Option<Bytes>, data: Option<Bytes>)
    : (r: Result<FileCommand, Error>)
    ensures r.Success? <==> IsLegalPath(path)
    ensures r.Success? ==> r.value == Modify(path.value, mode, dataref, data) && ValidFileCommand(r.value)
    ensures r.Failure? ==> r.error == IllegalPath(path)
  {
    var p :- CheckPath(path);
    Success(Modify(p, mode, dataref, data))
  }

  /** `FileDeleteCommand(path)` */
  function NewDelete(path: Option<Bytes>): (r: Result<FileCommand, Error>)
    ensures r.Success? <==> IsLegalPath(path)
    ensures r.Success? ==> r.value == Delete(path.value) && ValidFileCommand(r.value)
    ensures r.Failure? ==> r.error == IllegalPath(path)
  {
    var p :- CheckPath(path);
    Success(Delete(p))
  }

  /** `FileCopyCommand(src_path, dest_path)`: the source path is checked first. */
  function NewCopy(src: Option<Bytes>, dest: Option<Bytes>): (r: Result<FileCommand, Error>)
    ensures r.Success? <==> IsLegalPath(src) && IsLegalPath(dest)
    ensures r.Success? ==> r.value == Copy(src.value, dest.value) && ValidFileCommand(r.value)
    ensures r.Failure? ==> r.error == IllegalPath(if IsLegalPath(src) then dest else src)
  {
    var s :- CheckPath(src);
    var d :- CheckPath(dest);
    Success(Copy(s, d))
  }

  /** `FileRenameCommand(old_path, new_path)`: the old path is checked first. */
  function NewRename(oldPath: Option<Bytes>, newPath: Option<Bytes>): (r: Result<FileCommand, Error>)
    ensures r.Success? <==> IsLegalPath(oldPath) && IsLegalPath(newPath)
    ensures r.Success? ==> r.value == Rename(oldPath.value, newPath.value) && ValidFileCommand(r.value)
    ensures r.Failure? ==> r.error == IllegalPath(if IsLegalPath(oldPath) then newPath else oldPath)
  {
    var o :- CheckPath(oldPath);
    var n :- CheckPath(newPath);
    Success(Rename(o, n))
  }

  /** `stat.S_ISDIR(mode)`: the file-type bits `mode & 0o170000` equal `0o040000`. */
  predicate IsDirectory(mode: nat) {
    (mode / 0x1000) % 16 == 4
  }

  /** The modes `_format_mode` accepts. */
  predicate IsKnownMode(mode: nat) {
    mode in {RegularMode, RegularFileMode, ExecutableMode, ExecutableFileMode, DirectoryMode, SymlinkMode, GitlinkMode}
  }

  /** `_format_mode`: the short form of a known tree mode; any other mode is a fatal error. */
  function FormatMode(mode: nat): (r: Result<Bytes, Error>)
    ensures r.Success? <==> IsKnownMode(mode)
    ensures r.Failure? ==> r.error == UnknownMode(mode)
  {
    if mode == ExecutableMode || mode == ExecutableFileMode then Success("755")
    else if mode == RegularMode || mode == RegularFileMode then Success("644")
    else if mode == DirectoryMode then Success("040000")
    else if mode == SymlinkMode then Success("120000")
    else if mode == GitlinkMode then Success("160000")
    else Failure(UnknownMode(mode))
  }

  predicate AllOctal(s: string) {
    forall i :: 0 <= i < |s| ==> '0' <= s[i] <= '7'
  }

  /** The number an octal digit run denotes, as the mode of an `M` line is read. */
  function OctalValue(s: string): nat
    requires AllOctal(s)
  {
    if s == [] then 0 else 8 * OctalValue(s[..|s| - 1]) + (s[|s| - 1] as int - '0' as int)
  }

  lemma ExecutableOctal()
    ensures AllOctal("755") && OctalValue("755") == ExecutableMode
  {
    assert "755"[..2] == "75" && "75"[..1] == "7" && "7"[..0] == "";
  }

  lemma RegularOctal()
    ensures AllOctal("644") && OctalValue("644") == RegularMode
  {
    assert "644"[..2] == "64" && "64"[..1] == "6" && "6"[..0] == "";
  }

  lemma DirectoryOctal()
    ensures AllOctal("040000") && OctalValue("040000") == DirectoryMode
  {
    assert "040000"[..5] == "04000" && "04000"[..4] == "0400" && "0400"[..3] == "040";
    assert "040"[..2] == "04" && "04"[..1] == "0" && "0"[..0] == "";
  }

  lemma SymlinkOctal()
    ensures AllOctal("120000") && OctalValue("120000") == SymlinkMode
  {
    assert "120000"[..5] == "12000" && "12000"[..4] == "1200" && "1200"[..3] == "120";
    assert "120"[..2] == "12" && "12"[..1] == "1" && "1"[..0] == "";
  }

  lemma GitlinkOctal()
    ensures AllOctal("160000") && OctalValue("160000") == GitlinkMode
  {
    assert "160000"[..5] == "16000" && "16000"[..4] == "1600" && "1600"[..3] == "160";
    assert "160"[..2] == "16" && "16"[..1] == "1" && "1"[..0] == "";
  }

  /** The short form read as octal is the mode itself, or the mode without its regular-file bit
      `0o100000`: that bit never shows, and it is dropped exactly from `0o100644` and `0o100755`. No
      token but the directory's starts with `0`. */
  lemma FormatModeOctal(mode: nat)
    requires FormatMode(mode).Success?
    ensures var t := FormatMode(mode).value;
            AllOctal(t) && (OctalValue(t) == mode || OctalValue(t) + 0x8000 == mode) &&
            OctalValue(t) == (if mode == RegularFileMode || mode == ExecutableFileMode then mode - 0x8000 else mode) &&
            |t| > 0 && (t[0] == '0' ==> t == "040000")
  {
    if mode == ExecutableMode || mode == ExecutableFileMode {
      ExecutableOctal();
    } else if mode == RegularMode || mode == RegularFileMode {
      RegularOctal();
    } else if mode == DirectoryMode {
      DirectoryOctal();
    } else if mode == SymlinkMode {
      SymlinkOctal();
    } else {
      GitlinkOctal();
    }
  }

  /** Of the known modes exactly the directory mode formats as `040000`. */
  lemma FormatModeDirectory(mode: nat)
    requires FormatMode(mode).Success?
    ensures FormatMode(mode).value == "040000" <==> IsDirectory(mode)
  {
    assert "755" != "040000" && "644" != "040000" && "120000" != "040000" && "160000" != "040000" by {
      assert "755"[0] != '0' && "644"[0] != '0' && "120000"[0] != '0' && "160000"[0] != '0';
    }
  }

  /** Formatting is a fixed point of reading back: a formatted mode, read as octal, formats to the same
      text, so formatting is the inverse of reading on its own output. */
  lemma ModeRoundTrip(mode: nat)
    requires FormatMode(mode).Success?
    ensures var t := FormatMode(mode).value; AllOctal(t) && FormatMode(OctalValue(t)) == Success(t)
  {
    if mode == ExecutableMode || mode == ExecutableFileMode {
      ExecutableOctal();
    } else if mode == RegularMode || mode == RegularFileMode {
      RegularOctal();
    } else if mode == DirectoryMode {
      DirectoryOctal();
    } else if mode == SymlinkMode {
      SymlinkOctal();
    } else {
      GitlinkOctal();
    }
  }

  /** The dataref token of an `M` line: `-` for a directory, `inline` without a dataref. */
  function DatarefToken(mode: nat, dataref: Option<Bytes>): Bytes {
    if IsDirectory(mode) then "-" else if dataref.None? then "inline" else dataref.value
  }

  /** `FileModifyCommand.to_string(include_file_contents)` */
  function ModifyBytes(path: Bytes, mode: nat, dataref: Option<Bytes>, data: Option<Bytes>, includeContents: bool)
    : (r: Result<Bytes, Error>)
    ensures r.Success? <==> IsKnownMode(mode) &&
                            !(includeContents && !IsDirectory(mode) && dataref.None? && data.None?)
    ensures r.Failure? && includeContents && !IsDirectory(mode) && dataref.None? && data.None? ==>
              r.error == MissingInlineData
    ensures r.Failure? && IsKnownMode(mode) ==> r.error == MissingInlineData
    ensures r.Failure? && !(includeContents && !IsDirectory(mode) && dataref.None? && data.None?) ==>
              r.error == UnknownMode(mode)
  {
    var datastr: Result<Bytes, Error> :=
      if IsDirectory(mode) || dataref.Some? || !includeContents then Success([])
      else if data.None? then Failure(MissingInlineData)
      else Success("\n" + DataSection(data.value));
    var contents :- datastr;
    var modeText :- FormatMode(mode);
    Success("M " + modeText + " " + DatarefToken(mode, dataref) + " " +
            FormatPath(path, false, NeedsExtraSpaceAfterQuote) + contents)
  }

  /** A directory entry renders as `M 040000 - <path>`, with no data whatever its dataref or contents. */
  lemma DirectoryModify(path: Bytes, mode: nat, dataref: Option<Bytes>, data: Option<Bytes>, includeContents: bool)
    requires IsDirectory(mode) && ModifyBytes(path, mode, dataref, data, includeContents).Success?
    ensures ModifyBytes(path, mode, dataref, data, includeContents).value == "M 040000 - " + FormatPath(path, false, false)
  {
    FormatModeDirectory(mode);
  }

  /** A modify naming its content by a dataref, for a file, is the single line
      `M <mode> <dataref> <path>`, with or without contents. */
  lemma ModifyDatarefLine(path: Bytes, mode: nat, ref: Bytes, data: Option<Bytes>, includeContents: bool)
    requires IsKnownMode(mode) && !IsDirectory(mode)
    ensures ModifyBytes(path, mode, Some(ref), data, includeContents) ==
            Success("M " + FormatMode(mode).value + " " + ref + " " + FormatPath(path, false, false))
  {
    var line := "M " + FormatMode(mode).value + " " + ref + " " + FormatPath(path, false, false);
    assert line + [] == line;
  }

  /** Inline content is materialized as a data section only when contents are included; otherwise the
      line is the same whatever the content. */
  lemma InlineModify(path: Bytes, mode: nat, data: Bytes)
    requires IsKnownMode(mode) && !IsDirectory(mode)
    ensures var line := "M " + FormatMode(mode).value + " " + "inline" + " " + FormatPath(path, false, false);
            ModifyBytes(path, mode, None, Some(data), true) == Success(line + ("\n" + DataSection(data))) &&
            ModifyBytes(path, mode, None, Some(data), false) == Success(line) &&
            ModifyBytes(path, mode, None, None, false) == Success(line)
  {
    var line := "M " + FormatMode(mode).value + " " + "inline" + " " + FormatPath(path, false, false);
    assert line + [] == line;
  }

  /** `__bytes__` of each file sub-command; `includeContents` matters only for an inline modify. */
  function FileCommandBytes(fc: FileCommand, includeContents: bool): (r: Result<Bytes, Error>)
    ensures !fc.Modify? ==> r.Success?
    ensures fc.Modify? ==>
              (r.Success? <==>
                 IsKnownMode(fc.mode) && !(includeContents && !IsDirectory(fc.mode) && fc.dataref.None? && fc.data.None?))
  {
    match fc
    case Modify(path, mode, dataref, data) => ModifyBytes(path, mode, dataref, data, includeContents)
    case Delete(path) => Success("D " + FormatPath(path, false, NeedsExtraSpaceAfterQuote))
    case Copy(src, dest) =>
      Success("C " + FormatPath(src, true, NeedsExtraSpaceAfterQuote) + " " + FormatPath(dest, false, NeedsExtraSpaceAfterQuote))
    case Rename(oldPath, newPath) =>
      Success("R " + FormatPath(oldPath, true, NeedsExtraSpaceAfterQuote) + " " + FormatPath(newPath, false, NeedsExtraSpaceAfterQuote))
    case DeleteAll => Success("deleteall")
  }

  /** The token a reader dispatches a file sub-command on. */
  function FileKeyword(fc: FileCommand): Bytes {
    match fc
    case Modify(_, _, _, _) => "M "
    case Delete(_) => "D "
    case Copy(_, _) => "C "
    case Rename(_, _) => "R "
    case DeleteAll => "deleteall"
  }

  /** Each rendering starts with the token of its kind. */
  lemma FileCommandStartsWithKeyword(fc: FileCommand, includeContents: bool)
    requires FileCommandBytes(fc, includeContents).Success?
    ensures StartsWith(FileCommandBytes(fc, includeContents).value, FileKeyword(fc))
  {
    match fc
    case Modify(path, mode, dataref, data) =>
      var modeText, token, p := FormatMode(mode).value, DatarefToken(mode, dataref), FormatPath(path, false, false);
      var contents: Bytes := if IsDirectory(mode) || dataref.Some? || !includeContents then [] else "\n" + DataSection(data.value);
      assert FileCommandBytes(fc, includeContents).value == "M " + modeText + " " + token + " " + p + contents;
      PrefixSplit("M ", modeText);
      StartsWithConcat("M " + modeText, "M ", " ");
      StartsWithConcat("M " + modeText + " ", "M ", token);
      StartsWithConcat("M " + modeText + " " + token, "M ", " ");
      StartsWithConcat("M " + modeText + " " + token + " ", "M ", p);
      StartsWithConcat("M " + modeText + " " + token + " " + p, "M ", contents);
    case Delete(path) =>
      PrefixSplit("D ", FormatPath(path, false, false));
    case Copy(src, dest) =>
      var a, b := FormatPath(src, true, false), FormatPath(dest, false, false);
      PrefixSplit("C ", a);
      StartsWithConcat("C " + a, "C ", " ");
      StartsWithConcat("C " + a + " ", "C ", b);
    case Rename(oldPath, newPath) =>
      var a, b := FormatPath(oldPath, true, false), FormatPath(newPath, false, false);
      PrefixSplit("R ", a);
      StartsWithConcat("R " + a, "R ", " ");
      StartsWithConcat("R " + a + " ", "R ", b);
    case DeleteAll =>
      PrefixSplit("deleteall", []);
  }

  /** With the corrected newline escape, every rendering except an inline modify with its contents
      fits on one line. */
  lemma FileCommandSingleLine(fc: FileCommand, includeContents: bool)
    requires FileCommandBytes(fc, includeContents).Success?
    requires fc.Modify? ==> (fc.dataref.Some? ==> '\n' !in fc.dataref.value) &&
                            !(includeContents && fc.dataref.None? && !IsDirectory(fc.mode))
    ensures '\n' !in FileCommandBytes(fc, includeContents).value
  {
    if fc.Modify? {
      FormatModeOctal(fc.mode);
      ModifySingleLine(fc.path, fc.mode, fc.dataref, fc.data, includeContents);
    }
  }

  lemma ModifySingleLine(path: Bytes, mode: nat, dataref: Option<Bytes>, data: Option<Bytes>, includeContents: bool)
    requires ModifyBytes(path, mode, dataref, data, includeContents).Success?
    requires '\n' !in FormatMode(mode).value
    requires (dataref.Some? ==> '\n' !in dataref.value) && !(includeContents && dataref.None? && !IsDirectory(mode))
    ensures '\n' !in ModifyBytes(path, mode, dataref, data, includeContents).value
  {
    var line := "M " + FormatMode(mode).value + " " + DatarefToken(mode, dataref) + " " + FormatPath(path, false, false);
    assert ModifyBytes(path, mode, dataref, data, includeContents).value == line + [];
    assert line + [] == line;
  }

  // The worked example behind `AsWrittenDeleteSpansTwoLines`: the path `a<LF>b`, rendered as written
  // and with the corrected escape.

  /** `a<LF>b` holds a newline, so `format_path` quotes it. */
  lemma SampleNeedsQuoting()
    ensures '\n' in "a\nb" && NeedsQuoting("a\nb", false)
  {
    assert "a\nb"[1] == '\n';
  }

  /** The corrected escape writes its newline as a backslash and `n`. */
  lemma SampleEscaped()
    ensures EscapeNewlines("a\nb") == "a\\nb"
  {
    var p := "a\nb";
    assert p[1..] == "\nb" && "\nb"[1..] == "b" && "b"[1..] == [];
    assert EscapeNewlines("b") == "b";
    assert EscapeNewlines("\nb") == "\\n" + EscapeNewlines("b");
    assert EscapeNewlines(p) == "a" + EscapeNewlines("\nb");
  }

  /** As written, the quoted path keeps its newline, so the `D` line splits in two. */
  lemma SampleAsWrittenLines()
    ensures SplitLines("D " + FormatPathAsWritten("a\nb", false, false)) == ["D \"a", "b\""]
  {
    SampleNeedsQuoting();
    assert "D " + FormatPathAsWritten("a\nb", false, false) == "D \"a" + "\n" + "b\"";
    SplitLinesJoin("D \"a", "b\"");
    SplitLinesSingle("b\"");
  }

  /** With the corrected escape, the quoted path is one line. */
  lemma SampleIntended()
    ensures FormatPath("a\nb", false, false) == "\"a\\nb\""
  {
    SampleNeedsQuoting();
    SampleEscaped();
  }

  /** With `format_path` as written, deleting the path `a<LF>b` gives a sub-command that a line reader
      splits in two; with the intended escape it is `D "a\nb"`, which holds no newline. */
  lemma AsWrittenDeleteSpansTwoLines()
    ensures SplitLines("D " + FormatPathAsWritten("a\nb", false, NeedsExtraSpaceAfterQuote)) == ["D \"a", "b\""]
    ensures FileCommandBytes(Delete("a\nb"), true) == Success("D \"a\\nb\"")
  {
    SampleAsWrittenLines();
    SampleIntended();
    DeleteRendering("a\nb", true);
    SampleDeleteLine();
  }

  /** The corrected `D` line of the worked example, spelled out. */
  lemma SampleDeleteLine()
    ensures "D " + "\"a\\nb\"" == "D \"a\\nb\""
  {
    var s := "D " + "\"a\\nb\"";
    assert |s| == 8;
    assert s[0] == 'D' && s[1] == ' ' && s[2] == '"' && s[3] == 'a';
    assert s[4] == '\\' && s[5] == 'n' && s[6] == 'b' && s[7] == '"';
  }

  lemma DeleteRendering(p: Bytes, includeContents: bool)
    ensures FileCommandBytes(Delete(p), includeContents) == Success("D " + FormatPath(p, false, NeedsExtraSpaceAfterQuote))
  {
  }

  /** A deletion, copy or rename built by its constructor names a path that is neither empty nor
      absolute: the byte after its keyword is there and is not `/`. */
  lemma CheckedPathNotAbsolute(fc: FileCommand, includeContents: bool)
    requires ValidFileCommand(fc) && (fc.Delete? || fc.Copy? || fc.Rename?)
    ensures var r := FileCommandBytes(fc, includeContents).value; |r| > 2 && r[2] != '/'
  {
    var first := if fc.Delete? then fc.path else if fc.Copy? then fc.srcPath else fc.oldPath;
    var quoteSpaces := !fc.Delete?;
    FormatPathFirstByte(first, quoteSpaces, false);
    var r := FileCommandBytes(fc, includeContents).value;
    assert r[2] == FormatPath(first, quoteSpaces, false)[0];
  }

  /** Reads the first path of a copy or rename: a quoted token, or up to the first space. */
  function ReadFirstPath(s: Bytes): Option<(Bytes, Bytes)> {
    if s != [] && s[0] == '"' then ReadQuoted(s)
    else var i := IndexOf(s, ' '); Some((s[..i], s[i..]))
  }

  /** Quoting the first path whenever it has a space makes the separating space unambiguous: the first
      path of a copy or rename reads back exactly, leaving the separator and the second path. */
  lemma FirstPathReadBack(p: Bytes, rest: Bytes)
    requires '\\' !in p && '"' !in p
    ensures ReadFirstPath(FormatPath(p, true, false) + (" " + rest)) == Some((p, " " + rest))
  {
    if NeedsQuoting(p, true) {
      QuotedFirstPath(p, " " + rest);
    } else {
      PlainFirstPath(p, rest);
    }
  }

  lemma QuotedFirstPath(p: Bytes, rest: Bytes)
    requires '\\' !in p && '"' !in p && NeedsQuoting(p, true)
    ensures ReadFirstPath(FormatPath(p, true, false) + rest) == Some((p, rest))
  {
    QuotedPathReadBack(p, true, false, rest);
    var s := FormatPath(p, true, false) + rest;
    assert s[0] == '"';
    assert ReadQuoted(s) == Some((p, [] + rest));
    assert [] + rest == rest;
  }

  lemma PlainFirstPath(p: Bytes, rest: Bytes)
    requires '"' !in p && !NeedsQuoting(p, true)
    ensures ReadFirstPath(FormatPath(p, true, false) + (" " + rest)) == Some((p, " " + rest))
  {
    var s := p + (" " + rest);
    assert s == p + " " + rest;
    IndexOfConcat(p, ' ', rest);
    assert s[..|p|] == p && s[|p|..] == " " + rest;
    assert s != [] && s[0] != '"' by {
      if p != [] {
        assert s[0] == p[0];
      }
    }
  }

  /** Reads the last path of a sub-command: a quoted token, or everything that is left. */
  function ReadLastPath(s: Bytes): Option<(Bytes, Bytes)> {
    if s != [] && s[0] == '"' then ReadQuoted(s) else Some((s, []))
  }

  /** With the corrected escape, a path rendered last on its line reads back exactly, with nothing left. */
  lemma LastPathReadBack(p: Bytes)
    requires '\\' !in p && '"' !in p
    ensures ReadLastPath(FormatPath(p, false, false)) == Some((p, []))
  {
    var s := FormatPath(p, false, false);
    if NeedsQuoting(p, false) {
      QuotedPathReadBack(p, false, false, []);
      assert s[0] == '"';
      var none: Bytes := [];
      assert s + none == s;
      assert ReadQuoted(s + none) == Some((p, "" + none));
      assert "" + none == none;
      assert ReadLastPath(s) == ReadQuoted(s);
    } else {
      assert s == p;
      assert s != [] ==> s[0] != '"';
    }
  }

  /** With the corrected escape, a deletion is `D ` and then a path that reads back as the deleted path. */
  lemma DeleteReadBack(p: Bytes, includeContents: bool)
    requires '\\' !in p && '"' !in p
    ensures var r := FileCommandBytes(Delete(p), includeContents).value;
            |r| >= 2 && r[..2] == "D " && ReadLastPath(r[2..]) == Some((p, []))
  {
    DeleteRendering(p, includeContents);
    PrefixSplit("D ", FormatPath(p, false, false));
    LastPathReadBack(p);
  }

  /** With the corrected escape, a copy or rename is its keyword, then its first path, which reads back
      exactly and leaves the separating space and the rendered second path, which reads back in turn. */
  lemma CopyRenameReadBack(fc: FileCommand, includeContents: bool)
    requires fc.Copy? || fc.Rename?
    requires var first := if fc.Copy? then fc.srcPath else fc.oldPath;
             var second := if fc.Copy? then fc.destPath else fc.newPath;
             '\\' !in first && '"' !in first && '\\' !in second && '"' !in second
    ensures var first := if fc.Copy? then fc.srcPath else fc.oldPath;
            var second := if fc.Copy? then fc.destPath else fc.newPath;
            var r := FileCommandBytes(fc, includeContents).value;
            |r| >= 2 && r[..2] == FileKeyword(fc) &&
            ReadFirstPath(r[2..]) == Some((first, " " + FormatPath(second, false, false))) &&
            ReadLastPath(FormatPath(second, false, false)) == Some((second, []))
  {
    var first := if fc.Copy? then fc.srcPath else fc.oldPath;
    var second := if fc.Copy? then fc.destPath else fc.newPath;
    var a, b := FormatPath(first, true, false), FormatPath(second, false, false);
    PathPairSplit(FileKeyword(fc), a, b);
    FirstPathReadBack(first, b);
    LastPathReadBack(second);
  }

  lemma PathPairSplit(keyword: Bytes, a: Bytes, b: Bytes)
    requires |keyword| == 2
    ensures var r := keyword + a + " " + b; r[..2] == keyword && r[2..] == a + (" " + b)
  {
    var r := keyword + a + " " + b;
    assert r == keyword + (a + (" " + b));
  }
}
