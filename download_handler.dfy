/**
 * `DownloadHandler.handle`: the decision that turns a download request into
 * a response. The repository lookup (`FileRepository.findById`) is a map from
 * upload id to record, and the streamed body is described by the file it
 * reads and the buffer size, not by the bytes it delivers.
 */
module DownloadHandler {
  import opened Wrappers
  import opened JavaLang
  import opened FileNameEscape

  /** A stored upload as the repository returns it; the handler reads only its original name. */
  datatype UploadRecord = UploadRecord(originalName: string)

  /** The body: the file `directory/fileName`, read in buffers of `bufferSize` octets. */
  datatype BlobRead = BlobRead(directory: string, fileName: string, bufferSize: nat)

  /** An HTTP response: status code, header fields and, for a download, the body that streams the file. */
  datatype Response = Response(status: int, headers: map<string, string>, body: Option<BlobRead>)

  /** What `handle` yields: a response, or the NumberFormatException that `Long.parseLong` throws. */
  datatype Outcome = Responded(response: Response) | NumberFormatException

  const ContentDisposition: string := "Content-Disposition"
  const ContentType: string := "Content-Type"
  const ApplicationOctetStream: string := "application/octet-stream"
  const ReadBufferSize: nat := 4096

  const FileNameOpening: string := "attachment; filename=\""
  const ExtendedOpening: string := "\"; filename*=utf-8''\""
  const Closing: string := "\""

  /**
   * The Content-Disposition value: the escaped name in the `filename`
   * parameter and again, quoted as well, after the `utf-8''` prefix of the
   * extended `filename*` parameter. A name without '"' cannot end either
   * parameter early: the value reads back as the name, twice.
   */
  function Disposition(escaped: string): (h: string)
    ensures (forall i :: 0 <= i < |escaped| ==> escaped[i] != '"') ==>
      ParseDisposition(h) == Some((escaped, escaped))
  {
    var h := FileNameOpening + escaped + ExtendedOpening + escaped + Closing;
    if forall i :: 0 <= i < |escaped| ==> escaped[i] != '"' then
      QuotedPairReadsBack(escaped, h);
      h
    else
      h
  }

  /** The position of the first '"' in `s`, or |s| when there is none. */
  function QuoteIndex(s: string): (n: nat)
    ensures n <= |s|
    ensures forall i :: 0 <= i < n ==> s[i] != '"'
    ensures n < |s| ==> s[n] == '"'
  {
    if s == [] || s[0] == '"' then 0 else 1 + QuoteIndex(s[1..])
  }

  /**
   * How a client reads a Disposition value: the texts that the quotes of the
   * `filename` and of the `filename*` parameter enclose, or None when the value
   * does not have that shape.
   */
  function ParseDisposition(h: string): Option<(string, string)> {
    if !(FileNameOpening <= h) then None
    else
      var rest := h[|FileNameOpening|..];
      var n := QuoteIndex(rest);
      var afterName := rest[n..];
      if !(ExtendedOpening <= afterName) then None
      else
        var rest2 := afterName[|ExtendedOpening|..];
        var m := QuoteIndex(rest2);
        if rest2[m..] == Closing then Some((rest[..n], rest2[..m])) else None
  }

  lemma QuotedPairReadsBack(escaped: string, h: string)
    requires forall i :: 0 <= i < |escaped| ==> escaped[i] != '"'
    requires h == FileNameOpening + escaped + ExtendedOpening + escaped + Closing
    ensures ParseDisposition(h) == Some((escaped, escaped))
  {
    var tail := ExtendedOpening + escaped + Closing;
    assert h == FileNameOpening + (escaped + tail);
    var rest := h[|FileNameOpening|..];
    assert rest == escaped + tail;
    QuoteIndexAfter(escaped, tail);
    assert rest[..|escaped|] == escaped;
    var afterName := rest[|escaped|..];
    assert afterName == tail;
    var rest2 := afterName[|ExtendedOpening|..];
    assert rest2 == escaped + Closing;
    QuoteIndexAfter(escaped, Closing);
    assert rest2[..|escaped|] == escaped;
  }

  lemma QuoteIndexAfter(a: string, b: string)
    requires forall i :: 0 <= i < |a| ==> a[i] != '"'
    requires b != [] && b[0] == '"'
    ensures QuoteIndex(a + b) == |a|
  {
    assert (a + b)[|a|] == '"';
    assert forall i :: 0 <= i < |a| ==> (a + b)[i] == a[i];
  }

  /**
   * `handle(request)` for the path variable `uploadId`, the repository
   * contents `files` and the storage directory `fileDirectory`.
   */
  function Handle(files: map<int, UploadRecord>, uploadId: string, fileDirectory: string): (r: Outcome)
    ensures r.NumberFormatException? <==> ParseLong(uploadId).None?
    ensures r.Responded? ==> (r.response.status == 200 <==> ParseLong(uploadId).value in files)
    ensures r.Responded? ==> (r.response.status == 404 <==> ParseLong(uploadId).value !in files)
    ensures r.Responded? && r.response.status == 404 ==> r.response.headers == map[] && r.response.body == None
    ensures r.Responded? && r.response.status == 200 ==>
      var escaped := EscapeFileName(files[ParseLong(uploadId).value].originalName);
      && r.response.headers == map[ContentDisposition := Disposition(escaped), ContentType := ApplicationOctetStream]
      && r.response.body == Some(BlobRead(fileDirectory, uploadId, ReadBufferSize))
  {
    match ParseLong(uploadId)
    case None => NumberFormatException
    case Some(id) =>
      if id in files then
        var escaped := EscapeFileName(files[id].originalName);
        var headers := map[ContentDisposition := Disposition(escaped), ContentType := ApplicationOctetStream];
        Responded(Response(200, headers, Some(BlobRead(fileDirectory, uploadId, ReadBufferSize))))
      else
        Responded(Response(404, map[], None))
  }

  /** The Content-Disposition value of an escaped name holds no CR and no LF, so it stays one header line. */
  lemma DispositionIsOneLine(escaped: string)
    requires forall i :: 0 <= i < |escaped| ==> IsSafeChar(escaped[i])
    ensures '\r' !in Disposition(escaped) && '\n' !in Disposition(escaped)
  {
    assert '\r' !in escaped && '\n' !in escaped by {
      forall i | 0 <= i < |escaped| ensures escaped[i] != '\r' && escaped[i] != '\n' {
        assert IsSafeChar(escaped[i]);
      }
    }
    assert '\r' !in FileNameOpening && '\n' !in FileNameOpening;
    assert '\r' !in ExtendedOpening && '\n' !in ExtendedOpening;
    assert Disposition(escaped) == FileNameOpening + escaped + ExtendedOpening + escaped + Closing;
  }

  /**
   * On a hit, the Content-Disposition value parses back into the escaped name
   * in both parameters and stays on one line, and the escaped name
   * percent-decodes to the name's UTF-8 octets with control octets read back
   * as '_'.
   */
  lemma HandleDispositionReadsBack(files: map<int, UploadRecord>, uploadId: string, fileDirectory: string)
    requires Handle(files, uploadId, fileDirectory).Responded?
    requires Handle(files, uploadId, fileDirectory).response.status == 200
    ensures var name := files[ParseLong(uploadId).value].originalName;
      var h := Handle(files, uploadId, fileDirectory).response.headers[ContentDisposition];
      && ParseDisposition(h) == Some((EscapeFileName(name), EscapeFileName(name)))
      && PercentDecode(EscapeFileName(name)) == Some(ReplaceControls(Utf8.Encode(name)))
      && '\r' !in h && '\n' !in h
  {
    var name := files[ParseLong(uploadId).value].originalName;
    var escaped := EscapeFileName(name);
    EscapeAlphabet(Utf8.Encode(name));
    DecodeEscape(Utf8.Encode(name));
    DispositionIsOneLine(escaped);
  }

  /** Requested by its canonical decimal text, an upload is read from the file named by its id. */
  lemma HandleCanonicalId(files: map<int, UploadRecord>, id: nat, fileDirectory: string)
    requires id <= MaxLong
    ensures Handle(files, DecimalString(id), fileDirectory).Responded?
    ensures Handle(files, DecimalString(id), fileDirectory).response.status == (if id in files then 200 else 404)
    ensures id in files ==>
      Handle(files, DecimalString(id), fileDirectory).response.body == Some(BlobRead(fileDirectory, DecimalString(id), ReadBufferSize))
  {
    ParseLongDecimal(id);
  }

  /**
   * Record 42 named "résumé.pdf": the request for "42" gets status 200, the
   * two-parameter header, the octet-stream type and a body read from
   * `fileDirectory/42` in buffers of 4096 octets.
   */
  lemma HandleResume(fileDirectory: string)
    ensures Handle(map[42 := UploadRecord("résumé.pdf")], "42", fileDirectory) == Responded(Response(200,
      map[ContentDisposition := "attachment; filename=\"r%C3%A9sum%C3%A9.pdf\"; filename*=utf-8''\"r%C3%A9sum%C3%A9.pdf\"",
          ContentType := "application/octet-stream"],
      Some(BlobRead(fileDirectory, "42", 4096))))
  {
    ParseLongDecimal(42);
    assert DecimalString(42) == "42";
    EscapeResume();
    ResumeDisposition();
  }

  /** The Content-Disposition value of the escaped "résumé.pdf", written out. */
  lemma ResumeDisposition()
    ensures Disposition("r%C3%A9sum%C3%A9.pdf") == "attachment; filename=\"r%C3%A9sum%C3%A9.pdf\"; filename*=utf-8''\"r%C3%A9sum%C3%A9.pdf\""
  {
    ResumeHeaderName();
    ResumeHeaderExtended();
    ResumeHeaderSecondName();
    ResumeHeaderClosing();
  }

  // The header of ResumeDisposition, assembled one parameter piece at a time.
  lemma ResumeHeaderName()
    ensures FileNameOpening + "r%C3%A9sum%C3%A9.pdf" == "attachment; filename=\"r%C3%A9sum%C3%A9.pdf"
  {
  }

  lemma ResumeHeaderExtended()
    ensures "attachment; filename=\"r%C3%A9sum%C3%A9.pdf" + ExtendedOpening == "attachment; filename=\"r%C3%A9sum%C3%A9.pdf\"; filename*=utf-8''\""
  {
  }

  lemma ResumeHeaderSecondName()
    ensures "attachment; filename=\"r%C3%A9sum%C3%A9.pdf\"; filename*=utf-8''\"" + "r%C3%A9sum%C3%A9.pdf" == "attachment; filename=\"r%C3%A9sum%C3%A9.pdf\"; filename*=utf-8''\"r%C3%A9sum%C3%A9.pdf"
  {
  }

  lemma ResumeHeaderClosing()
    ensures "attachment; filename=\"r%C3%A9sum%C3%A9.pdf\"; filename*=utf-8''\"r%C3%A9sum%C3%A9.pdf" + Closing == "attachment; filename=\"r%C3%A9sum%C3%A9.pdf\"; filename*=utf-8''\"r%C3%A9sum%C3%A9.pdf\""
  {
  }

  /** No record 99: the request for "99" gets an empty 404, without Content-Disposition. */
  lemma HandleMissing(files: map<int, UploadRecord>, fileDirectory: string)
    requires 99 !in files
    ensures Handle(files, "99", fileDirectory) == Responded(Response(404, map[], None))
    ensures ContentDisposition !in Handle(files, "99", fileDirectory).response.headers
  {
    ParseLongDecimal(99);
    assert DecimalString(99) == "99";
  }

  /**
   * The lookup uses the parsed number but the body uses the raw text: "042"
   * finds record 42 and reads the file "042", not "42".
   */
  lemma HandleRawIdText(files: map<int, UploadRecord>, fileDirectory: string)
    requires 42 in files
    ensures Handle(files, "042", fileDirectory).Responded? && Handle(files, "42", fileDirectory).Responded?
    ensures Handle(files, "042", fileDirectory).response.headers == Handle(files, "42", fileDirectory).response.headers
    ensures Handle(files, "042", fileDirectory).response.body == Some(BlobRead(fileDirectory, "042", ReadBufferSize))
    ensures Handle(files, "42", fileDirectory).response.body == Some(BlobRead(fileDirectory, "42", ReadBufferSize))
  {
    ParseLongDecimal(42);
    assert DecimalString(42) == "42";
    var text := "042";
    var t0, t1 := text[..1], text[..2];
    assert t0 == "0" && t1 == "04" && t0[..0] == [] && t1[..1] == t0;
    assert DigitsValue(t0) == 0;
    assert DigitsValue(t1) == 4;
    assert DigitsValue(text) == 42;
  }

  /** Text that is not a decimal `long`, or one beyond its range, makes `handle` throw before any lookup. */
  lemma HandleMalformedId(files: map<int, UploadRecord>, fileDirectory: string)
    ensures Handle(files, "", fileDirectory) == NumberFormatException
    ensures Handle(files, "-", fileDirectory) == NumberFormatException
    ensures Handle(files, "+", fileDirectory) == NumberFormatException
    ensures Handle(files, "4x2", fileDirectory) == NumberFormatException
    ensures forall n: nat :: n > MaxLong ==> Handle(files, DecimalString(n), fileDirectory) == NumberFormatException
    ensures forall n: nat :: n > -MinLong ==> Handle(files, "-" + DecimalString(n), fileDirectory) == NumberFormatException
  {
    assert !AllDigits("4x2") by {
      assert !IsDigit("4x2"[1]);
    }
    forall n: nat | n > MaxLong
      ensures ParseLong(DecimalString(n)) == None
    {
      DigitsValueOfDecimal(n);
    }
    forall n: nat | n > -MinLong
      ensures ParseLong("-" + DecimalString(n)) == None
    {
      assert ("-" + DecimalString(n))[1..] == DecimalString(n);
      DigitsValueOfDecimal(n);
    }
  }
}
