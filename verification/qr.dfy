/** `generate_qr` of qr_generator.py: the text encoded for a device, and the
    choice of image format from the path's file type. Rendering and saving
    the image belong to the `qrcode` library and are reduced to the outcome. */
module Qr {
  import opened Wrappers
  import opened PyText

  /** The fields of a device that the QR code uses: its id and its article's name. */
  datatype Device = Device(uid: int, articleName: string)

  /** `f"id={device.uid} name={device.article.name}"`. */
  function Payload(d: Device): string {
    "id=" + IntToString(d.uid) + " name=" + d.articleName
  }

  const NameTag: string := " name="

  /** Reads a payload back: the id runs up to the first space, the name is
      everything after ` name=`. */
  function ParsePayload(text: string): Option<Device> {
    if !StartsWith(text, "id=") then None
    else
      var rest := text[3..];
      var idText := Split(rest, ' ')[0];
      SplitHeadIsPrefix(rest, ' ');
      var tail := rest[|idText|..];
      match ParseInt(idText)
      case None => None
      case Some(uid) =>
        if StartsWith(tail, NameTag) then Some(Device(uid, tail[|NameTag|..])) else None
  }

  /** Every device, whatever its article's name, can be read back from its code. */
  lemma PayloadRoundTrip(d: Device)
    ensures ParsePayload(Payload(d)) == Some(d)
  {
    var text := Payload(d);
    var idText := IntToString(d.uid);
    var tail := NameTag + d.articleName;
    assert text[3..] == idText + tail;
    IntToStringHasNoSpace(d.uid);
    SplitFirstWord(idText, tail);
    assert (idText + tail)[|idText|..] == tail;
    ParseIntOfIntToString(d.uid);
  }

  /** Position of the last occurrence of `c`. */
  function LastIndex(s: string, c: char): (r: Option<nat>)
    ensures r.None? <==> c !in s
    ensures r.Some? ==> r.value < |s| && s[r.value] == c && c !in s[r.value + 1..]
  {
    if |s| == 0 then None
    else if s[|s| - 1] == c then Some(|s| - 1)
    else
      var r := LastIndex(s[..|s| - 1], c);
      assert r.Some? ==> s[r.value + 1..] == s[..|s| - 1][r.value + 1..] + [s[|s| - 1]];
      r
  }

  /** `re.match(r".*\.(?P<filetype>.*$)", path).group("filetype").lower()`,
      or `None` when there is no match. `.` stops at a line break and `$`
      also matches before a final line break, so the path must be one line,
      optionally followed by a single `\n`; the greedy first `.*` places the
      group after the line's last dot. */
  function FileType(path: string): (r: Option<string>)
    ensures r.Some? ==> '\n' !in r.value && '.' !in r.value
  {
    var line := Line(path);
    if line != path && path[|line|..] != "\n" then None
    else
      match LastIndex(line, '.')
      case None => None
      case Some(k) =>
        LowerKeepsAbsent(line[k + 1..], '.');
        LowerKeepsAbsent(line[k + 1..], '\n');
        Some(Lower(line[k + 1..]))
  }

  /** Lower-casing does not create dots or line breaks. */
  lemma LowerKeepsAbsent(s: string, c: char)
    requires c !in s && !('a' <= c <= 'z')
    ensures c !in Lower(s)
  {
  }

  /** A one-line path `stem.ext` whose extension has no dot has file type `ext`,
      lower-cased. */
  lemma FileTypeOfName(stem: string, ext: string)
    requires '\n' !in stem && '\n' !in ext && '.' !in ext
    ensures FileType(stem + "." + ext) == Some(Lower(ext))
  {
    var path := stem + "." + ext;
    assert '\n' !in path;
    LineOfNewlineFree(path);
    var k := LastIndex(path, '.');
    assert path[|stem|] == '.';
    assert path[|stem| + 1..] == ext;
    LastDotIs(path, |stem|);
  }

  lemma LastDotIs(s: string, i: nat)
    requires i < |s| && s[i] == '.' && '.' !in s[i + 1..]
    ensures LastIndex(s, '.') == Some(i)
  {
  }

  /** A final line break does not change the file type. */
  lemma FileTypeIgnoresFinalBreak(path: string)
    requires '\n' !in path
    ensures FileType(path + "\n") == FileType(path)
  {
    LineOfNewlineFree(path);
    LineStopsAtBreak(path, "");
    assert path + ("\n" + "") == path + "\n";
    assert (path + "\n")[|path|..] == "\n";
  }

  /** A path without a dot, or one with a line break before its last line,
      does not match. */
  lemma UnmatchedPaths(path: string)
    requires '.' !in Line(path) || (exists i :: 0 <= i < |path| - 1 && path[i] == '\n')
    ensures FileType(path) == None
  {
  }

  /** What `generate_qr` ends with. */
  datatype QrOutcome =
    | Saved(path: string, payload: string)   // an SVG image of `payload` written to `path`
    | NotImplemented(fileType: string)        // NotImplementedError for any other format
    | NoFileType                              // the match is None: AttributeError

  /** `generate_qr(device, path)`. */
  function GenerateQr(d: Device, path: string): (r: QrOutcome)
    ensures r.Saved? <==> FileType(path) == Some("svg")
    ensures r.Saved? ==> r.path == path && ParsePayload(r.payload) == Some(d)
    ensures r.NotImplemented? <==> FileType(path).Some? && FileType(path) != Some("svg")
    ensures r.NotImplemented? ==> Some(r.fileType) == FileType(path)
    ensures r.NoFileType? <==> FileType(path).None?
  {
    match FileType(path)
    case None => NoFileType
    case Some(fileType) =>
      if fileType == "svg" then
        PayloadRoundTrip(d);
        Saved(path, Payload(d))
      else NotImplemented(fileType)
  }

  /** The file type is compared after lower-casing, so `.SVG` is saved too. */
  lemma UpperCaseSvgIsSaved(d: Device, stem: string)
    requires '\n' !in stem
    ensures GenerateQr(d, stem + ".SVG") == Saved(stem + ".SVG", Payload(d))
  {
    FileTypeOfName(stem, "SVG");
    assert stem + "." + "SVG" == stem + ".SVG";
    LowerSvg();
  }

  lemma LowerSvg()
    ensures Lower("SVG") == "svg"
    ensures Lower("svg") == "svg"
  {
    var u := Lower("SVG");
    assert u[0] == 's' && u[1] == 'v' && u[2] == 'g';
    var l := Lower("svg");
    assert l[0] == 's' && l[1] == 'v' && l[2] == 'g';
  }

  /** The example at the bottom of the module: device 10 of article `Article`
      saved to `test.svg`. */
  lemma ModuleExample()
    ensures GenerateQr(Device(10, "Article"), "test.svg") == Saved("test.svg", "id=" + "10" + " name=" + "Article")
  {
    FileTypeOfName("test", "svg");
    assert "test" + "." + "svg" == "test.svg";
    LowerSvg();
    assert FileType("test.svg") == Some("svg");
    TenAsText();
    assert Payload(Device(10, "Article")) == "id=" + "10" + " name=" + "Article";
  }

  lemma TenAsText()
    ensures IntToString(10) == "10"
  {
    assert NatToString(1) == "1";
    assert DigitChar(0) == '0';
    assert NatToString(10) == NatToString(1) + [DigitChar(0)];
  }
}
