/**
 * The multipart/form-data encoder of wdata_import.py (`encode_multipart_formdata`
 * and `get_content_type`).  The body roughly follows the layout of section 4
 * of RFC 7578 and the delimiter lines of section 5.1.1 of RFC 2046, though the
 * boundary's final `$` is not one of RFC 2046's boundary characters, and
 * nothing is escaped.
 *
 * Beside the encoder the module defines a decoder of the same layout, the
 * partner against which the encoder's round trip is proved.  Like a multipart
 * parser it ends each value at the next delimiter line, so values may hold
 * CRLF line ends.
 */
module Multipart {
  import opened Wrappers

  /** A plain form field, `(key, value)` in the source. */
  datatype FormField = FormField(key: string, value: string)

  /** A file part, `(key, filename, value)` in the source. */
  datatype FormFile = FormFile(key: string, filename: string, content: string)

  /** What a decoder recovers from a body: the fields, then the files. */
  datatype Form = Form(fields: seq<FormField>, files: seq<FormFile>)

  /** The fixed boundary token (`LIMIT`). */
  const Limit: string := "----------lImIt_of_THE_fIle_eW_$"
  const Crlf: string := "\r\n"
  /** The type used when the MIME lookup yields nothing. */
  const Fallback: string := "application/octet-stream"

  /** Opens every part. */
  const Delimiter: string := "--" + Limit
  /** Closes the body. */
  const CloseDelimiter: string := Delimiter + "--"
  const DispositionPrefix: string := "Content-Disposition: form-data; name=\""
  const FilenameInfix: string := "\"; filename=\""
  const ContentTypePrefix: string := "Content-Type: "
  const MultipartPrefix: string := "multipart/form-data; boundary="

  function FieldDisposition(key: string): string {
    DispositionPrefix + key + "\""
  }

  function FileDisposition(key: string, filename: string): string {
    DispositionPrefix + key + FilenameInfix + filename + "\""
  }

  /**
   * `get_content_type`: the MIME lookup (`mimetypes.guess_type`) is the
   * uninterpreted `guess`; Python's `or` falls back both on `None` and on an
   * empty guess.
   */
  function ContentType(guess: string -> Option<string>, filename: string): (r: string)
    ensures r != ""
  {
    match guess(filename)
    case Some(t) => if t != "" then t else Fallback
    case None => Fallback
  }

  /** The content type is the guess when there is a non-empty one, and the fallback otherwise. */
  lemma ContentTypeChoice(guess: string -> Option<string>, filename: string)
    ensures var r := ContentType(guess, filename);
      && (r == Fallback || guess(filename) == Some(r))
      && (guess(filename).None? || guess(filename) == Some("") ==> r == Fallback)
      && (guess(filename).Some? && guess(filename).value != "" ==> r == guess(filename).value)
  {
  }

  /** The four lines of one field part. */
  function FieldLines(f: FormField): seq<string> {
    [Delimiter, FieldDisposition(f.key), "", f.value]
  }

  /** The five lines of one file part. */
  function FileLines(guess: string -> Option<string>, f: FormFile): seq<string> {
    [Delimiter, FileDisposition(f.key, f.filename), ContentTypePrefix + ContentType(guess, f.filename), "", f.content]
  }

  /** The lines of the field parts, in input order: four per field. */
  function FieldsLines(fields: seq<FormField>): (r: seq<string>)
    ensures |r| == 4 * |fields|
  {
    if fields == [] then [] else FieldsLines(fields[..|fields| - 1]) + FieldLines(fields[|fields| - 1])
  }

  /** The lines of the file parts, in input order: five per file. */
  function FilesLines(guess: string -> Option<string>, files: seq<FormFile>): (r: seq<string>)
    ensures |r| == 5 * |files|
  {
    if files == [] then [] else FilesLines(guess, files[..|files| - 1]) + FileLines(guess, files[|files| - 1])
  }

  /** The line list `L` the encoder builds: fields, files, the close delimiter and `''`. */
  function Lines(fields: seq<FormField>, files: seq<FormFile>, guess: string -> Option<string>): (r: seq<string>)
    ensures |r| == 4 * |fields| + 5 * |files| + 2
  {
    FieldsLines(fields) + FilesLines(guess, files) + [CloseDelimiter, ""]
  }

  /** Python's `sep.join(lines)`. */
  function Join(sep: string, lines: seq<string>): string {
    if lines == [] then ""
    else if |lines| == 1 then lines[0]
    else lines[0] + sep + Join(sep, lines[1..])
  }

  /** The first loop of `encode_multipart_formdata`: one part per field, in input order. */
  method AppendFieldParts(lines0: seq<string>, fields: seq<FormField>) returns (lines: seq<string>)
    ensures lines == lines0 + FieldsLines(fields)
  {
    lines := lines0;
    for i := 0 to |fields|
      invariant lines == lines0 + FieldsLines(fields[..i])
    {
      lines := lines + FieldLines(fields[i]);
      assert fields[..i + 1][..i] == fields[..i];
    }
    assert fields[..|fields|] == fields;
  }

  /** The second loop of `encode_multipart_formdata`: one part per file, in input order. */
  method AppendFileParts(lines0: seq<string>, files: seq<FormFile>, guess: string -> Option<string>)
    returns (lines: seq<string>)
    ensures lines == lines0 + FilesLines(guess, files)
  {
    lines := lines0;
    for j := 0 to |files|
      invariant lines == lines0 + FilesLines(guess, files[..j])
    {
      lines := lines + FileLines(guess, files[j]);
      assert files[..j + 1][..j] == files[..j];
    }
    assert files[..|files|] == files;
  }

  /**
   * `encode_multipart_formdata`: builds the line list part by part, in input
   * order, then joins it with CRLF.
   */
  method EncodeMultipartFormData(fields: seq<FormField>, files: seq<FormFile>, guess: string -> Option<string>)
    returns (contentType: string, body: string)
    ensures contentType == MultipartPrefix + Limit
    ensures body == Join(Crlf, Lines(fields, files, guess))
  {
    var lines := AppendFieldParts([], fields);
    lines := AppendFileParts(lines, files, guess);
    lines := lines + [CloseDelimiter, ""];
    assert lines == Lines(fields, files, guess);
    body := Join(Crlf, lines);
    contentType := MultipartPrefix + Limit;
  }

  lemma {:induction false} FieldsLinesCons(f: FormField, fields: seq<FormField>)
    ensures FieldsLines([f] + fields) == FieldLines(f) + FieldsLines(fields)
    decreases |fields|
  {
    if fields != [] {
      var all, init, last := [f] + fields, fields[..|fields| - 1], fields[|fields| - 1];
      assert all[..|all| - 1] == [f] + init && all[|all| - 1] == last;
      assert FieldsLines(all) == FieldsLines([f] + init) + FieldLines(last);
      assert FieldsLines(fields) == FieldsLines(init) + FieldLines(last);
      FieldsLinesCons(f, init);
    }
  }

  lemma {:induction false} FilesLinesCons(guess: string -> Option<string>, f: FormFile, files: seq<FormFile>)
    ensures FilesLines(guess, [f] + files) == FileLines(guess, f) + FilesLines(guess, files)
    decreases |files|
  {
    if files != [] {
      var all, init, last := [f] + files, files[..|files| - 1], files[|files| - 1];
      assert all[..|all| - 1] == [f] + init && all[|all| - 1] == last;
      assert FilesLines(guess, all) == FilesLines(guess, [f] + init) + FileLines(guess, last);
      assert FilesLines(guess, files) == FilesLines(guess, init) + FileLines(guess, last);
      FilesLinesCons(guess, f, init);
    }
  }

  // ---------------------------------------------------------------------------
  // Slices of concatenations

  lemma SliceLeft<T>(a: seq<T>, b: seq<T>, lo: int, hi: int)
    requires 0 <= lo <= hi <= |a|
    ensures (a + b)[lo..hi] == a[lo..hi]
  {
  }

  lemma SliceRight<T>(a: seq<T>, b: seq<T>, lo: int, hi: int)
    requires |a| <= lo <= hi <= |a| + |b|
    ensures (a + b)[lo..hi] == b[lo - |a|..hi - |a|]
  {
  }

  lemma Suffix<T>(a: seq<T>, b: seq<T>)
    ensures (a + b)[|a|..] == b
  {
  }

  // ---------------------------------------------------------------------------
  // The layout of the line list

  lemma {:induction false} FieldsLinesLayout(fields: seq<FormField>)
    ensures |FieldsLines(fields)| == 4 * |fields|
    ensures forall i {:trigger fields[i]} :: 0 <= i < |fields| ==>
      FieldsLines(fields)[4 * i..4 * i + 4] == FieldLines(fields[i])
  {
    if fields != [] {
      var n := |fields|;
      var init := fields[..n - 1];
      FieldsLinesLayout(init);
      var front, last := FieldsLines(init), FieldLines(fields[n - 1]);
      assert FieldsLines(fields) == front + last;
      forall i | 0 <= i < n
        ensures FieldsLines(fields)[4 * i..4 * i + 4] == FieldLines(fields[i])
      {
        if i < n - 1 {
          assert fields[i] == init[i];
          SliceLeft(front, last, 4 * i, 4 * i + 4);
        } else {
          SliceRight(front, last, 4 * i, 4 * i + 4);
        }
      }
    }
  }

  lemma {:induction false} FilesLinesLayout(guess: string -> Option<string>, files: seq<FormFile>)
    ensures |FilesLines(guess, files)| == 5 * |files|
    ensures forall j {:trigger files[j]} :: 0 <= j < |files| ==>
      FilesLines(guess, files)[5 * j..5 * j + 5] == FileLines(guess, files[j])
  {
    if files != [] {
      var n := |files|;
      var init := files[..n - 1];
      FilesLinesLayout(guess, init);
      var front, last := FilesLines(guess, init), FileLines(guess, files[n - 1]);
      assert FilesLines(guess, files) == front + last;
      forall j | 0 <= j < n
        ensures FilesLines(guess, files)[5 * j..5 * j + 5] == FileLines(guess, files[j])
      {
        if j < n - 1 {
          assert files[j] == init[j];
          SliceLeft(front, last, 5 * j, 5 * j + 5);
        } else {
          SliceRight(front, last, 5 * j, 5 * j + 5);
        }
      }
    }
  }

  /** The line list is the field lines, then the file lines and the two closing lines. */
  lemma LinesShape(fields: seq<FormField>, files: seq<FormFile>, guess: string -> Option<string>)
    ensures |FieldsLines(fields)| == 4 * |fields| && |FilesLines(guess, files)| == 5 * |files|
    ensures Lines(fields, files, guess) == FieldsLines(fields) + (FilesLines(guess, files) + [CloseDelimiter, ""])
    ensures |Lines(fields, files, guess)| == 4 * |fields| + 5 * |files| + 2
  {
    assert |FieldsLines(fields)| == 4 * |fields| by { FieldsLinesLayout(fields); }
    assert |FilesLines(guess, files)| == 5 * |files| by { FilesLinesLayout(guess, files); }
  }

  /** Field i occupies lines 4i to 4i+3, in input order. */
  lemma LinesFieldAt(fields: seq<FormField>, files: seq<FormFile>, guess: string -> Option<string>, i: nat)
    requires i < |fields|
    ensures |Lines(fields, files, guess)| == 4 * |fields| + 5 * |files| + 2
    ensures Lines(fields, files, guess)[4 * i..4 * i + 4] == [Delimiter, FieldDisposition(fields[i].key), "", fields[i].value]
  {
    LinesShape(fields, files, guess);
    var fl := FieldsLines(fields);
    assert fl[4 * i..4 * i + 4] == FieldLines(fields[i]) by { FieldsLinesLayout(fields); }
    SliceLeft(fl, FilesLines(guess, files) + [CloseDelimiter, ""], 4 * i, 4 * i + 4);
  }

  lemma LinesFilePart(fields: seq<FormField>, files: seq<FormFile>, guess: string -> Option<string>, j: nat)
    requires j < |files|
    ensures |Lines(fields, files, guess)| == 4 * |fields| + 5 * |files| + 2
    ensures Lines(fields, files, guess)[4 * |fields| + 5 * j..4 * |fields| + 5 * j + 5] == FileLines(guess, files[j])
  {
    LinesShape(fields, files, guess);
    var fl, gl, close := FieldsLines(fields), FilesLines(guess, files), [CloseDelimiter, ""];
    assert gl[5 * j..5 * j + 5] == FileLines(guess, files[j]) by { FilesLinesLayout(guess, files); }
    SliceRight(fl, gl + close, 4 * |fields| + 5 * j, 4 * |fields| + 5 * j + 5);
    SliceLeft(gl, close, 5 * j, 5 * j + 5);
  }

  /** File j occupies the five lines from 4|fields| + 5j on: after every field, in input order. */
  lemma LinesFileAt(fields: seq<FormField>, files: seq<FormFile>, guess: string -> Option<string>, j: nat)
    requires j < |files|
    ensures |Lines(fields, files, guess)| == 4 * |fields| + 5 * |files| + 2
    ensures var base := 4 * |fields| + 5 * j;
      Lines(fields, files, guess)[base..base + 5] ==
      [Delimiter, FileDisposition(files[j].key, files[j].filename),
       ContentTypePrefix + ContentType(guess, files[j].filename), "", files[j].content]
  {
    LinesFilePart(fields, files, guess, j);
  }

  /**
   * The line list holds 4 lines per field and 5 per file, plus two: the close
   * delimiter and an empty line, which end it.
   */
  lemma LinesEnd(fields: seq<FormField>, files: seq<FormFile>, guess: string -> Option<string>)
    ensures |Lines(fields, files, guess)| == 4 * |fields| + 5 * |files| + 2
    ensures Lines(fields, files, guess)[4 * |fields| + 5 * |files|..] == [CloseDelimiter, ""]
  {
    LinesShape(fields, files, guess);
    Suffix(FieldsLines(fields) + FilesLines(guess, files), [CloseDelimiter, ""]);
  }

  lemma {:induction false} JoinSnoc(sep: string, lines: seq<string>, x: string)
    requires lines != []
    ensures Join(sep, lines + [x]) == Join(sep, lines) + sep + x
  {
    if |lines| > 1 {
      assert (lines + [x])[1..] == lines[1..] + [x];
      JoinSnoc(sep, lines[1..], x);
    }
  }

  /** The body ends with the close delimiter followed by CRLF. */
  lemma BodyEndsWithClose(fields: seq<FormField>, files: seq<FormFile>, guess: string -> Option<string>)
    ensures var body := Join(Crlf, Lines(fields, files, guess));
      |body| >= |CloseDelimiter + Crlf| &&
      body[|body| - |CloseDelimiter + Crlf|..] == CloseDelimiter + Crlf
  {
    var front := FieldsLines(fields) + FilesLines(guess, files);
    var body := Join(Crlf, Lines(fields, files, guess));
    var ending := CloseDelimiter + Crlf;
    if front == [] {
      var ls := Lines(fields, files, guess);
      assert ls == [CloseDelimiter, ""];
      assert ls[1..] == [""] && Join(Crlf, ls[1..]) == "";
      assert Join(Crlf, ls) == ls[0] + Crlf + Join(Crlf, ls[1..]);
      assert body == ending + "";
      Suffix([], ending);
    } else {
      JoinSnoc(Crlf, front, CloseDelimiter);
      JoinSnoc(Crlf, front + [CloseDelimiter], "");
      assert front + [CloseDelimiter] + [""] == Lines(fields, files, guess);
      assert body == (Join(Crlf, front) + Crlf) + ending;
      Suffix(Join(Crlf, front) + Crlf, ending);
    }
  }

  // ---------------------------------------------------------------------------
  // The decoder: the partner of the encoder

  /** Python's `s.split('\r\n')`: the pieces between CRLF pairs. */
  function SplitCrlf(s: string): (r: seq<string>)
    ensures |r| >= 1
    decreases |s|
  {
    if |s| >= 2 && s[0] == '\r' && s[1] == '\n' then [""] + SplitCrlf(s[2..])
    else if s == [] then [""]
    else
      var rest := SplitCrlf(s[1..]);
      [[s[0]] + rest[0]] + rest[1..]
  }

  /** The index of the first `c` in `s`, or `|s|` when there is none. */
  function IndexOf(s: string, c: char): (k: nat)
    ensures k <= |s|
    ensures k < |s| ==> s[k] == c
    ensures forall i :: 0 <= i < k ==> s[i] != c
  {
    if s == [] then 0 else if s[0] == c then 0 else 1 + IndexOf(s[1..], c)
  }

  /** The key of a field's Content-Disposition line. */
  function ParseFieldDisposition(line: string): Option<string> {
    if |line| > |DispositionPrefix| && line[..|DispositionPrefix|] == DispositionPrefix && line[|line| - 1] == '"'
    then Some(line[|DispositionPrefix|..|line| - 1])
    else None
  }

  /** The key and the file name of a file's Content-Disposition line; the key ends at the first quote. */
  function ParseFileDisposition(line: string): Option<(string, string)> {
    if |line| >= |DispositionPrefix| && line[..|DispositionPrefix|] == DispositionPrefix then
      var rest := line[|DispositionPrefix|..];
      var k := IndexOf(rest, '"');
      var tail := rest[k..];
      if |tail| > |FilenameInfix| && tail[..|FilenameInfix|] == FilenameInfix && tail[|tail| - 1] == '"'
      then Some((rest[..k], tail[|FilenameInfix|..|tail| - 1]))
      else None
    else None
  }

  /** Whether a line is `--LIMIT` or `--LIMIT--`: the lines at which a part's value ends. */
  predicate IsDelimiterLine(line: string) {
    line == Delimiter || line == CloseDelimiter
  }

  /** The number of lines before the first delimiter line: the lines of one value. */
  function ValueLineCount(lines: seq<string>): (n: nat)
    ensures n <= |lines|
  {
    if lines == [] || IsDelimiterLine(lines[0]) then 0 else 1 + ValueLineCount(lines[1..])
  }

  /** The key a field part's head describes: the delimiter, the disposition line and the empty line. */
  function ParseFieldHead(head: seq<string>): Option<string>
    requires |head| == 3
  {
    if head[0] == Delimiter && head[2] == "" then ParseFieldDisposition(head[1]) else None
  }

  /** The key and file name a file part's head describes: as for a field, with the Content-Type line third. */
  function ParseFileHead(head: seq<string>): Option<(string, string)>
    requires |head| == 4
  {
    if head[0] == Delimiter && head[3] == ""
       && |head[2]| >= |ContentTypePrefix| && head[2][..|ContentTypePrefix|] == ContentTypePrefix
    then ParseFileDisposition(head[1])
    else None
  }

  /**
   * Reads field parts from the front of `lines`; returns them and what follows.
   * A value is every line up to the next delimiter line, joined again with CRLF.
   */
  function TakeFields(lines: seq<string>): (seq<FormField>, seq<string>)
    decreases |lines|
  {
    if |lines| >= 3 && ParseFieldHead(lines[..3]).Some? && ValueLineCount(lines[3..]) > 0 then
      var n := ValueLineCount(lines[3..]);
      var (fields, rest) := TakeFields(lines[3 + n..]);
      ([FormField(ParseFieldHead(lines[..3]).value, Join(Crlf, lines[3..3 + n]))] + fields, rest)
    else ([], lines)
  }

  /** Reads file parts up to the close delimiter, which must end the list. */
  function TakeFiles(lines: seq<string>): Option<seq<FormFile>>
    decreases |lines|
  {
    if lines == [CloseDelimiter, ""] then Some([])
    else if |lines| >= 4 && ParseFileHead(lines[..4]).Some? && ValueLineCount(lines[4..]) > 0 then
      var n := ValueLineCount(lines[4..]);
      var (key, filename) := ParseFileHead(lines[..4]).value;
      match TakeFiles(lines[4 + n..])
      case Some(files) => Some([FormFile(key, filename, Join(Crlf, lines[4..4 + n]))] + files)
      case None => None
    else None
  }

  /** Decodes a line list laid out as the encoder lays it out. */
  function DecodeLines(lines: seq<string>): Option<Form> {
    var (fields, rest) := TakeFields(lines);
    match TakeFiles(rest)
    case Some(files) => Some(Form(fields, files))
    case None => None
  }

  /** Decodes a body: split it at every CRLF, then read the parts. */
  function Decode(body: string): Option<Form> {
    DecodeLines(SplitCrlf(body))
  }

  // ---------------------------------------------------------------------------
  // Splitting at CRLF

  /** Whether `s` holds no CRLF pair. */
  predicate NoCrlf(s: string) {
    forall i :: 0 <= i < |s| - 1 ==> !(s[i] == '\r' && s[i + 1] == '\n')
  }

  /** A character that does not begin a CRLF pair joins the first piece of what follows it. */
  lemma SplitGlue(c: char, t: string)
    requires !(c == '\r' && t != [] && t[0] == '\n')
    ensures SplitCrlf([c] + t) == [[c] + SplitCrlf(t)[0]] + SplitCrlf(t)[1..]
  {
    assert ([c] + t)[1..] == t;
  }

  /** Gluing a prefix onto the first line prefixes the join. */
  lemma JoinGlue(p: string, r: seq<string>)
    requires r != []
    ensures Join(Crlf, [p + r[0]] + r[1..]) == p + Join(Crlf, r)
  {
    var g := [p + r[0]] + r[1..];
    assert g[0] == p + r[0] && g[1..] == r[1..] && |g| == |r|;
    if |r| > 1 {
      var rest := Join(Crlf, r[1..]);
      assert Join(Crlf, g) == (p + r[0]) + Crlf + rest;
      assert Join(Crlf, r) == r[0] + Crlf + rest;
      PrefixAssoc(p, r[0], rest);
    }
  }

  /** Regrouping a prefix, a line, CRLF and the rest. */
  lemma PrefixAssoc(p: string, q: string, rest: string)
    ensures (p + q) + Crlf + rest == p + (q + Crlf + rest)
  {
  }

  /** Joining the pieces of a split with CRLF gives back the string, whatever it holds. */
  lemma {:induction false} JoinSplit(s: string)
    ensures Join(Crlf, SplitCrlf(s)) == s
    decreases |s|
  {
    if |s| >= 2 && s[0] == '\r' && s[1] == '\n' {
      var r := SplitCrlf(s[2..]);
      JoinSplit(s[2..]);
      assert ([""] + r)[1..] == r;
      assert s == Crlf + s[2..];
    } else if s != [] {
      assert s == [s[0]] + s[1..];
      SplitGlue(s[0], s[1..]);
      JoinSplit(s[1..]);
      JoinGlue([s[0]], SplitCrlf(s[1..]));
    }
  }

  /** Putting a CRLF in front of two strings whose splits agree up to a suffix keeps them agreeing. */
  lemma CrlfPrefix(a: string, t: string, more: seq<string>)
    requires SplitCrlf(t) == SplitCrlf(a) + more
    ensures SplitCrlf(Crlf + t) == SplitCrlf(Crlf + a) + more
  {
    var ra := SplitCrlf(a);
    assert (Crlf + t)[2..] == t && (Crlf + a)[2..] == a;
    assert [""] + (ra + more) == ([""] + ra) + more;
  }

  /** Gluing a prefix onto the first piece commutes with appending more pieces. */
  lemma GlueAppend(p: string, ra: seq<string>, more: seq<string>)
    requires ra != []
    ensures [p + (ra + more)[0]] + (ra + more)[1..] == ([p + ra[0]] + ra[1..]) + more
  {
    assert (ra + more)[0] == ra[0];
    assert (ra + more)[1..] == ra[1..] + more;
  }

  /** Likewise for a character that does not begin a CRLF pair in either string. */
  lemma GluePrefix(c: char, a: string, t: string, more: seq<string>)
    requires !(c == '\r' && t != [] && t[0] == '\n') && !(c == '\r' && a != [] && a[0] == '\n')
    requires SplitCrlf(t) == SplitCrlf(a) + more
    ensures SplitCrlf([c] + t) == SplitCrlf([c] + a) + more
  {
    SplitGlue(c, t);
    SplitGlue(c, a);
    GlueAppend([c], SplitCrlf(a), more);
  }

  /** The split divides a string at a CRLF placed between two strings, whatever they hold. */
  lemma {:induction false} SplitAround(x: string, y: string)
    ensures SplitCrlf(x + Crlf + y) == SplitCrlf(x) + SplitCrlf(y)
    decreases |x|
  {
    if x == [] {
      assert x + Crlf + y == Crlf + y && (Crlf + y)[2..] == y;
    } else if |x| >= 2 && x[0] == '\r' && x[1] == '\n' {
      var a := x[2..];
      assert x == Crlf + a && x + Crlf + y == Crlf + (a + Crlf + y);
      SplitAround(a, y);
      CrlfPrefix(a, a + Crlf + y, SplitCrlf(y));
    } else {
      var a := x[1..];
      var t := a + Crlf + y;
      assert x == [x[0]] + a && x + Crlf + y == [x[0]] + t;
      assert t[0] == if |x| == 1 then '\r' else x[1];
      SplitAround(a, y);
      GluePrefix(x[0], a, t, SplitCrlf(y));
    }
  }

  /** A string without a CRLF pair is a single piece. */
  lemma {:induction false} SplitNoCrlf(x: string)
    requires NoCrlf(x)
    ensures SplitCrlf(x) == [x]
    decreases |x|
  {
    if x != [] {
      assert |x| >= 2 ==> !(x[0] == '\r' && x[1] == '\n');
      assert NoCrlf(x[1..]) by {
        forall i | 0 <= i < |x[1..]| - 1
          ensures !(x[1..][i] == '\r' && x[1..][i + 1] == '\n')
        {
          assert x[1..][i] == x[i + 1] && x[1..][i + 1] == x[i + 2];
        }
      }
      SplitNoCrlf(x[1..]);
      assert [x[0]] + x[1..] == x;
    }
  }

  /** The pieces of every line, in order. */
  function SplitAll(lines: seq<string>): seq<string> {
    if lines == [] then [] else SplitCrlf(lines[0]) + SplitAll(lines[1..])
  }

  /** Splitting every line of two lists is splitting each list. */
  lemma {:induction false} SplitAllAppend(a: seq<string>, b: seq<string>)
    ensures SplitAll(a + b) == SplitAll(a) + SplitAll(b)
    decreases |a|
  {
    if a == [] {
      assert a + b == b;
    } else {
      assert (a + b)[0] == a[0] && (a + b)[1..] == a[1..] + b;
      SplitAllAppend(a[1..], b);
    }
  }

  /** Splitting a CRLF-join splits each joined line: a line holding CRLF comes apart. */
  lemma {:induction false} SplitJoin(lines: seq<string>)
    requires lines != []
    ensures SplitCrlf(Join(Crlf, lines)) == SplitAll(lines)
    decreases |lines|
  {
    if |lines| == 1 {
      assert lines[1..] == [];
    } else {
      SplitAround(lines[0], Join(Crlf, lines[1..]));
      SplitJoin(lines[1..]);
    }
  }

  // ---------------------------------------------------------------------------
  // No CRLF in the header lines

  /** A string without a carriage return holds no CRLF pair. */
  lemma NoCrNoCrlf(s: string)
    requires '\r' !in s
    ensures NoCrlf(s)
  {
    forall i | 0 <= i < |s| - 1
      ensures s[i] != '\r'
    {
      assert s[i] in s;
    }
  }

  /** Two strings without CRLF stay so when joined, unless a CR ends the first and an LF begins the second. */
  lemma NoCrlfConcat(a: string, b: string)
    requires NoCrlf(a) && NoCrlf(b)
    requires a == [] || b == [] || a[|a| - 1] != '\r' || b[0] != '\n'
    ensures NoCrlf(a + b)
  {
    var s := a + b;
    forall i | 0 <= i < |s| - 1
      ensures !(s[i] == '\r' && s[i + 1] == '\n')
    {
      if i + 1 < |a| {
        assert s[i] == a[i] && s[i + 1] == a[i + 1];
      } else if i >= |a| {
        assert s[i] == b[i - |a|] && s[i + 1] == b[i + 1 - |a|];
      } else {
        assert s[i] == a[|a| - 1] && s[i + 1] == b[0];
      }
    }
  }

  /** None of the encoder's fixed strings holds a carriage return. */
  lemma ConstantsNoCr()
    ensures '\r' !in Delimiter && '\r' !in CloseDelimiter
    ensures '\r' !in DispositionPrefix && '\r' !in FilenameInfix && '\r' !in ContentTypePrefix
  {
    assert '\r' !in Limit;
  }

  /** None of the encoder's fixed strings holds a CRLF pair. */
  lemma ConstantsNoCrlf()
    ensures NoCrlf(Delimiter) && NoCrlf(CloseDelimiter) && NoCrlf("\"")
    ensures NoCrlf(DispositionPrefix) && NoCrlf(FilenameInfix) && NoCrlf(ContentTypePrefix)
  {
    ConstantsNoCr();
    NoCrNoCrlf(Delimiter);
    NoCrNoCrlf(CloseDelimiter);
    NoCrNoCrlf("\"");
    NoCrNoCrlf(DispositionPrefix);
    NoCrNoCrlf(FilenameInfix);
    NoCrNoCrlf(ContentTypePrefix);
  }

  /** A field's disposition line holds CRLF only where its key does. */
  lemma FieldDispositionNoCrlf(key: string)
    requires NoCrlf(key)
    ensures NoCrlf(FieldDisposition(key))
  {
    ConstantsNoCrlf();
    NoCrlfConcat(DispositionPrefix, key);
    NoCrlfConcat(DispositionPrefix + key, "\"");
  }

  /** A file's disposition line holds CRLF only where its key or file name does. */
  lemma FileDispositionNoCrlf(key: string, filename: string)
    requires NoCrlf(key) && NoCrlf(filename)
    ensures NoCrlf(FileDisposition(key, filename))
  {
    ConstantsNoCrlf();
    var a := DispositionPrefix + key;
    NoCrlfConcat(DispositionPrefix, key);
    NoCrlfConcat(a, FilenameInfix);
    assert (a + FilenameInfix)[|a + FilenameInfix| - 1] == '"';
    NoCrlfConcat(a + FilenameInfix, filename);
    NoCrlfConcat(a + FilenameInfix + filename, "\"");
  }

  /** The Content-Type line holds CRLF only where the content type does. */
  lemma ContentTypeLineNoCrlf(guess: string -> Option<string>, filename: string)
    requires NoCrlf(ContentType(guess, filename))
    ensures NoCrlf(ContentTypePrefix + ContentType(guess, filename))
  {
    ConstantsNoCrlf();
    NoCrlfConcat(ContentTypePrefix, ContentType(guess, filename));
  }

  // ---------------------------------------------------------------------------
  // The split line list

  /** No line of `value` is a delimiter line, so the value ends where its part ends. */
  predicate ValueSafe(value: string) {
    var pieces := SplitCrlf(value);
    forall i :: 0 <= i < |pieces| ==> !IsDelimiterLine(pieces[i])
  }

  /** A field the decoder reads back: no CRLF in its key, and no delimiter line in its value. */
  predicate FieldSafe(f: FormField) {
    NoCrlf(f.key) && ValueSafe(f.value)
  }

  /** A file the decoder reads back: as for a field, and no quote in the key, no CRLF in the name or in the type. */
  predicate FileSafe(guess: string -> Option<string>, f: FormFile) {
    && NoCrlf(f.key) && '"' !in f.key && NoCrlf(f.filename)
    && NoCrlf(ContentType(guess, f.filename)) && ValueSafe(f.content)
  }

  /** What the decoder needs of the encoder's inputs. */
  predicate Decodable(fields: seq<FormField>, files: seq<FormFile>, guess: string -> Option<string>) {
    && (forall i :: 0 <= i < |fields| ==> FieldSafe(fields[i]))
    && (forall j :: 0 <= j < |files| ==> FileSafe(guess, files[j]))
  }

  /**
   * The pieces a field part comes apart into when the body is split at CRLF:
   * the three head lines, then the lines of the value.
   */
  function FieldPieces(f: FormField): seq<string> {
    [Delimiter, FieldDisposition(f.key), ""] + SplitCrlf(f.value)
  }

  /** Likewise for a file part: the four head lines, then the lines of the content. */
  function FilePieces(guess: string -> Option<string>, f: FormFile): seq<string> {
    [Delimiter, FileDisposition(f.key, f.filename), ContentTypePrefix + ContentType(guess, f.filename), ""]
    + SplitCrlf(f.content)
  }

  /** The pieces of the field parts, in input order. */
  function FieldsPieces(fields: seq<FormField>): seq<string> {
    if fields == [] then [] else FieldPieces(fields[0]) + FieldsPieces(fields[1..])
  }

  /** The pieces of the file parts, in input order. */
  function FilesPieces(guess: string -> Option<string>, files: seq<FormFile>): seq<string> {
    if files == [] then [] else FilePieces(guess, files[0]) + FilesPieces(guess, files[1..])
  }

  /** Splitting a list line by line, one line at a time. */
  lemma SplitAllCons(x: string, rest: seq<string>)
    ensures SplitAll([x] + rest) == SplitCrlf(x) + SplitAll(rest)
  {
    assert ([x] + rest)[1..] == rest;
  }

  /** Lines without CRLF stay whole; only the last line, the value, may come apart. */
  lemma {:induction false} SplitHead(head: seq<string>, value: string)
    requires forall i :: 0 <= i < |head| ==> NoCrlf(head[i])
    ensures SplitAll(head + [value]) == head + SplitCrlf(value)
    decreases |head|
  {
    if head == [] {
      assert head + [value] == [value];
      SplitAllCons(value, []);
    } else {
      assert head + [value] == [head[0]] + (head[1..] + [value]);
      SplitAllCons(head[0], head[1..] + [value]);
      SplitNoCrlf(head[0]);
      SplitHead(head[1..], value);
      assert head == [head[0]] + head[1..];
    }
  }

  /** A field part splits into its head and the lines of its value. */
  lemma FieldSplit(f: FormField)
    requires NoCrlf(f.key)
    ensures SplitAll(FieldLines(f)) == FieldPieces(f)
  {
    var head := [Delimiter, FieldDisposition(f.key), ""];
    assert NoCrlf(Delimiter) by {
      ConstantsNoCrlf();
    }
    FieldDispositionNoCrlf(f.key);
    assert FieldLines(f) == head + [f.value];
    SplitHead(head, f.value);
  }

  /** A file part splits into its head and the lines of its content. */
  lemma FileSplit(guess: string -> Option<string>, f: FormFile)
    requires NoCrlf(f.key) && NoCrlf(f.filename) && NoCrlf(ContentType(guess, f.filename))
    ensures SplitAll(FileLines(guess, f)) == FilePieces(guess, f)
  {
    var head := [Delimiter, FileDisposition(f.key, f.filename), ContentTypePrefix + ContentType(guess, f.filename), ""];
    assert NoCrlf(Delimiter) by {
      ConstantsNoCrlf();
    }
    FileDispositionNoCrlf(f.key, f.filename);
    ContentTypeLineNoCrlf(guess, f.filename);
    assert FileLines(guess, f) == head + [f.content];
    SplitHead(head, f.content);
  }

  /** The field parts split into their pieces, part by part. */
  lemma {:induction false} FieldsSplit(fields: seq<FormField>)
    requires forall i :: 0 <= i < |fields| ==> NoCrlf(fields[i].key)
    ensures SplitAll(FieldsLines(fields)) == FieldsPieces(fields)
    decreases |fields|
  {
    if fields != [] {
      assert fields == [fields[0]] + fields[1..];
      FieldsLinesCons(fields[0], fields[1..]);
      SplitAllAppend(FieldLines(fields[0]), FieldsLines(fields[1..]));
      FieldSplit(fields[0]);
      FieldsSplit(fields[1..]);
    }
  }

  /** The file parts split into their pieces, part by part. */
  lemma {:induction false} FilesSplit(guess: string -> Option<string>, files: seq<FormFile>)
    requires forall j :: 0 <= j < |files| ==>
      NoCrlf(files[j].key) && NoCrlf(files[j].filename) && NoCrlf(ContentType(guess, files[j].filename))
    ensures SplitAll(FilesLines(guess, files)) == FilesPieces(guess, files)
    decreases |files|
  {
    if files != [] {
      assert files == [files[0]] + files[1..];
      FilesLinesCons(guess, files[0], files[1..]);
      SplitAllAppend(FileLines(guess, files[0]), FilesLines(guess, files[1..]));
      FileSplit(guess, files[0]);
      FilesSplit(guess, files[1..]);
    }
  }

  /** Splitting the body gives the split parts, then the two closing lines. */
  lemma SplitBody(fields: seq<FormField>, files: seq<FormFile>, guess: string -> Option<string>)
    requires Decodable(fields, files, guess)
    ensures SplitCrlf(Join(Crlf, Lines(fields, files, guess)))
         == FieldsPieces(fields) + (FilesPieces(guess, files) + [CloseDelimiter, ""])
  {
    var close := [CloseDelimiter, ""];
    LinesShape(fields, files, guess);
    SplitJoin(Lines(fields, files, guess));
    SplitAllAppend(FieldsLines(fields), FilesLines(guess, files) + close);
    SplitAllAppend(FilesLines(guess, files), close);
    FieldsSplit(fields);
    FilesSplit(guess, files);
    CloseSplit();
  }

  /** The two closing lines stay as they are. */
  lemma CloseSplit()
    ensures SplitAll([CloseDelimiter, ""]) == [CloseDelimiter, ""]
  {
    assert NoCrlf(CloseDelimiter) by {
      ConstantsNoCrlf();
    }
    SplitHead([CloseDelimiter], "");
    assert [CloseDelimiter] + [""] == [CloseDelimiter, ""];
  }

  // ---------------------------------------------------------------------------
  // The round trip

  /** A field's disposition line reads back as its key. */
  lemma FieldDispositionRoundTrip(key: string)
    ensures ParseFieldDisposition(FieldDisposition(key)) == Some(key)
  {
    var line := FieldDisposition(key);
    assert line[..|DispositionPrefix|] == DispositionPrefix;
    assert line[|DispositionPrefix|..|line| - 1] == key;
  }

  /** A file's disposition line reads back as its key and file name when the key holds no quote. */
  lemma FileDispositionRoundTrip(key: string, filename: string)
    requires '"' !in key
    ensures ParseFileDisposition(FileDisposition(key, filename)) == Some((key, filename))
  {
    var line := FileDisposition(key, filename);
    assert line[..|DispositionPrefix|] == DispositionPrefix;
    var rest := line[|DispositionPrefix|..];
    assert rest == key + (FilenameInfix + filename + "\"");
    assert rest[|key|] == '"';
    assert IndexOf(rest, '"') == |key|;
    assert rest[..|key|] == key;
    var tail := rest[|key|..];
    assert tail == FilenameInfix + filename + "\"";
    assert tail[..|FilenameInfix|] == FilenameInfix;
    assert tail[|FilenameInfix|..|tail| - 1] == filename;
  }

  /** A value's lines run up to the delimiter line that follows them. */
  lemma {:induction false} ValueLineCountStops(value: seq<string>, rest: seq<string>)
    requires forall i :: 0 <= i < |value| ==> !IsDelimiterLine(value[i])
    requires rest != [] && IsDelimiterLine(rest[0])
    ensures ValueLineCount(value + rest) == |value|
    decreases |value|
  {
    if value == [] {
      assert value + rest == rest;
    } else {
      assert (value + rest)[0] == value[0];
      assert (value + rest)[1..] == value[1..] + rest;
      ValueLineCountStops(value[1..], rest);
    }
  }

  /** Where the head, the value lines and the rest of a part list lie. */
  lemma PartSlices(head: seq<string>, pieces: seq<string>, tail: seq<string>)
    ensures var lines, h, n := head + (pieces + tail), |head|, |pieces|;
      && lines[..h] == head && lines[h..] == pieces + tail
      && lines[h..h + n] == pieces && lines[h + n..] == tail
  {
  }

  /** One field part, followed by a delimiter line, reads back as the field. */
  lemma FieldPartRoundTrip(f: FormField, tail: seq<string>)
    requires FieldSafe(f)
    requires tail != [] && IsDelimiterLine(tail[0])
    ensures var lines, n := FieldPieces(f) + tail, |SplitCrlf(f.value)|;
      && |lines| >= 3 + n && ParseFieldHead(lines[..3]) == Some(f.key)
      && ValueLineCount(lines[3..]) == n
      && Join(Crlf, lines[3..3 + n]) == f.value && lines[3 + n..] == tail
  {
    var head, pieces := [Delimiter, FieldDisposition(f.key), ""], SplitCrlf(f.value);
    assert FieldPieces(f) + tail == head + (pieces + tail);
    PartSlices(head, pieces, tail);
    FieldDispositionRoundTrip(f.key);
    ValueLineCountStops(pieces, tail);
    JoinSplit(f.value);
  }

  /** One file part, followed by a delimiter line, reads back as the file. */
  lemma FilePartRoundTrip(guess: string -> Option<string>, f: FormFile, tail: seq<string>)
    requires FileSafe(guess, f)
    requires tail != [] && IsDelimiterLine(tail[0])
    ensures var lines, n := FilePieces(guess, f) + tail, |SplitCrlf(f.content)|;
      && |lines| >= 4 + n && lines[0] == Delimiter
      && ParseFileHead(lines[..4]) == Some((f.key, f.filename))
      && ValueLineCount(lines[4..]) == n
      && Join(Crlf, lines[4..4 + n]) == f.content && lines[4 + n..] == tail
  {
    var head := [Delimiter, FileDisposition(f.key, f.filename), ContentTypePrefix + ContentType(guess, f.filename), ""];
    var pieces := SplitCrlf(f.content);
    assert FilePieces(guess, f) + tail == head + (pieces + tail);
    PartSlices(head, pieces, tail);
    FileHeadRoundTrip(f.key, f.filename, ContentType(guess, f.filename));
    ValueLineCountStops(pieces, tail);
    JoinSplit(f.content);
  }

  /** A file part's head reads back as its key and file name, whatever the content type. */
  lemma FileHeadRoundTrip(key: string, filename: string, contentType: string)
    requires '"' !in key
    ensures ParseFileHead([Delimiter, FileDisposition(key, filename), ContentTypePrefix + contentType, ""]) == Some((key, filename))
  {
    assert (ContentTypePrefix + contentType)[..|ContentTypePrefix|] == ContentTypePrefix;
    FileDispositionRoundTrip(key, filename);
  }

  /** Reading a field part in front of a delimiter line gives the field, then whatever the rest gives. */
  lemma TakeFieldsStep(f: FormField, tail: seq<string>)
    requires FieldSafe(f)
    requires tail != [] && IsDelimiterLine(tail[0])
    ensures TakeFields(FieldPieces(f) + tail) == ([f] + TakeFields(tail).0, TakeFields(tail).1)
  {
    FieldPartRoundTrip(f, tail);
  }

  /** Reading a file part in front of a delimiter line gives the file, then whatever the rest gives. */
  lemma TakeFilesStep(guess: string -> Option<string>, f: FormFile, tail: seq<string>)
    requires FileSafe(guess, f)
    requires tail != [] && IsDelimiterLine(tail[0])
    requires TakeFiles(tail).Some?
    ensures TakeFiles(FilePieces(guess, f) + tail) == Some([f] + TakeFiles(tail).value)
  {
    FilePartRoundTrip(guess, f, tail);
    assert |FilePieces(guess, f) + tail| > 2;
  }

  /** A run of field parts in front of a delimiter line begins with a delimiter line. */
  lemma FieldsPiecesFront(fields: seq<FormField>, rest: seq<string>)
    requires rest != [] && IsDelimiterLine(rest[0])
    ensures FieldsPieces(fields) + rest != [] && IsDelimiterLine((FieldsPieces(fields) + rest)[0])
  {
    if fields != [] {
      assert (FieldsPieces(fields) + rest)[0] == FieldPieces(fields[0])[0];
    }
  }

  /** A run of file parts in front of a delimiter line begins with a delimiter line. */
  lemma FilesPiecesFront(guess: string -> Option<string>, files: seq<FormFile>, rest: seq<string>)
    requires rest != [] && IsDelimiterLine(rest[0])
    ensures FilesPieces(guess, files) + rest != [] && IsDelimiterLine((FilesPieces(guess, files) + rest)[0])
  {
    if files != [] {
      assert (FilesPieces(guess, files) + rest)[0] == FilePieces(guess, files[0])[0];
    }
  }

  /** Field parts are read back in order; reading stops where a file part or the close begins. */
  lemma {:induction false} TakeFieldsRoundTrip(fields: seq<FormField>, rest: seq<string>)
    requires forall i :: 0 <= i < |fields| ==> FieldSafe(fields[i])
    requires rest != [] && IsDelimiterLine(rest[0])
    requires |rest| < 3 || rest[2] != ""
    ensures TakeFields(FieldsPieces(fields) + rest) == (fields, rest)
    decreases |fields|
  {
    if fields == [] {
      assert FieldsPieces(fields) + rest == rest;
      if |rest| >= 3 {
        assert rest[..3][2] == rest[2];
      }
    } else {
      var tail := FieldsPieces(fields[1..]) + rest;
      assert FieldsPieces(fields) + rest == FieldPieces(fields[0]) + tail;
      FieldsPiecesFront(fields[1..], rest);
      TakeFieldsStep(fields[0], tail);
      TakeFieldsRoundTrip(fields[1..], rest);
      assert fields == [fields[0]] + fields[1..];
    }
  }

  /** File parts are read back in order, up to the close delimiter that ends the list. */
  lemma {:induction false} TakeFilesRoundTrip(guess: string -> Option<string>, files: seq<FormFile>)
    requires forall j :: 0 <= j < |files| ==> FileSafe(guess, files[j])
    ensures TakeFiles(FilesPieces(guess, files) + [CloseDelimiter, ""]) == Some(files)
    decreases |files|
  {
    var close := [CloseDelimiter, ""];
    if files == [] {
      assert FilesPieces(guess, files) + close == close;
    } else {
      var tail := FilesPieces(guess, files[1..]) + close;
      assert FilesPieces(guess, files) + close == FilePieces(guess, files[0]) + tail;
      FilesPiecesFront(guess, files[1..], close);
      TakeFilesRoundTrip(guess, files[1..]);
      TakeFilesStep(guess, files[0], tail);
      assert files == [files[0]] + files[1..];
    }
  }

  /** What follows the fields: a file part, whose third line is its Content-Type line, or the two closing lines. */
  lemma FilesStartWithDelimiter(guess: string -> Option<string>, files: seq<FormFile>)
    ensures var rest := FilesPieces(guess, files) + [CloseDelimiter, ""];
      rest != [] && IsDelimiterLine(rest[0]) && (|rest| < 3 || rest[2] != "")
  {
    if files != [] {
      var rest := FilesPieces(guess, files) + [CloseDelimiter, ""];
      var part := FilePieces(guess, files[0]);
      assert rest == part + (FilesPieces(guess, files[1..]) + [CloseDelimiter, ""]);
      assert rest[0] == part[0] && rest[2] == part[2];
    }
  }

  /** Decoding the split line list recovers the fields and the files, in order. */
  lemma DecodeLinesRoundTrip(fields: seq<FormField>, files: seq<FormFile>, guess: string -> Option<string>)
    requires Decodable(fields, files, guess)
    ensures DecodeLines(FieldsPieces(fields) + (FilesPieces(guess, files) + [CloseDelimiter, ""])) == Some(Form(fields, files))
  {
    FilesStartWithDelimiter(guess, files);
    TakeFieldsRoundTrip(fields, FilesPieces(guess, files) + [CloseDelimiter, ""]);
    TakeFilesRoundTrip(guess, files);
  }

  /**
   * Decoding the encoded body recovers the fields and the files, in input
   * order, values holding CRLF included.  The encoder escapes nothing, so no
   * line of a value may be a delimiter line, no key, file name or type may
   * hold CRLF, and no file key may hold a double quote.
   */
  lemma DecodeEncode(fields: seq<FormField>, files: seq<FormFile>, guess: string -> Option<string>)
    requires Decodable(fields, files, guess)
    ensures Decode(Join(Crlf, Lines(fields, files, guess))) == Some(Form(fields, files))
  {
    SplitBody(fields, files, guess);
    DecodeLinesRoundTrip(fields, files, guess);
  }

  /** Two lines, each ended by CRLF, split into the two lines and an empty last piece. */
  lemma TwoCrlfLines(a: string, b: string)
    requires NoCrlf(a) && NoCrlf(b)
    ensures SplitCrlf(a + Crlf + (b + Crlf + "")) == [a, b, ""]
  {
    SplitAround(a, b + Crlf + "");
    SplitAround(b, "");
    SplitNoCrlf(a);
    SplitNoCrlf(b);
  }

  /** The lines of a two-row CSV text with CRLF line ends. */
  lemma CsvSplit()
    ensures SplitCrlf("a,b\r\n1,2\r\n") == ["a,b", "1,2", ""]
  {
    NoCrNoCrlf("a,b");
    NoCrNoCrlf("1,2");
    TwoCrlfLines("a,b", "1,2");
    assert "a,b\r\n1,2\r\n" == "a,b" + Crlf + ("1,2" + Crlf + "");
  }

  /** No line of the CSV text is a delimiter line. */
  lemma CsvValueSafe()
    ensures ValueSafe("a,b\r\n1,2\r\n")
  {
    CsvSplit();
    ShortLinesSafe("a,b\r\n1,2\r\n");
  }

  /** A value whose lines are all shorter than the delimiter has no delimiter line. */
  lemma ShortLinesSafe(value: string)
    requires forall p | p in SplitCrlf(value) :: |p| < |Delimiter|
    ensures ValueSafe(value)
  {
    var pieces := SplitCrlf(value);
    forall i | 0 <= i < |pieces|
      ensures !IsDelimiterLine(pieces[i])
    {
      assert pieces[i] in pieces;
    }
  }

  /** The CSV file part can be read back. */
  lemma CsvFileSafe(guess: string -> Option<string>)
    requires NoCrlf(ContentType(guess, "data.csv"))
    ensures FileSafe(guess, FormFile("file", "data.csv", "a,b\r\n1,2\r\n"))
  {
    assert NoCrlf("file") by {
      NoCrNoCrlf("file");
    }
    assert NoCrlf("data.csv") by {
      NoCrNoCrlf("data.csv");
    }
    CsvValueSafe();
  }

  /** The table id field can be read back. */
  lemma TableIdFieldSafe()
    ensures FieldSafe(FormField("tableId", "t1"))
  {
    NoCrNoCrlf("tableId");
    NoCrNoCrlf("t1");
    SplitNoCrlf("t1");
    assert |Delimiter| > 3;
  }

  /** A CSV file with CRLF line ends, beside the table id, reads back unchanged. */
  lemma CsvRoundTrip(guess: string -> Option<string>)
    requires NoCrlf(ContentType(guess, "data.csv"))
    ensures var fields, files := [FormField("tableId", "t1")], [FormFile("file", "data.csv", "a,b\r\n1,2\r\n")];
      Decode(Join(Crlf, Lines(fields, files, guess))) == Some(Form(fields, files))
  {
    var fields, files := [FormField("tableId", "t1")], [FormFile("file", "data.csv", "a,b\r\n1,2\r\n")];
    TableIdFieldSafe();
    CsvFileSafe(guess);
    assert Decodable(fields, files, guess);
    DecodeEncode(fields, files, guess);
  }

  /**
   * Because nothing is escaped, a quote in a file key makes two different
   * parts share one Content-Disposition line.
   */
  lemma FileDispositionAmbiguous()
    ensures FileDisposition("a\"; filename=\"b", "c") == FileDisposition("a", "b\"; filename=\"c")
  {
  }
}
