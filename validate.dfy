/**
 * `validatePDF`: a signature sniff on the downloaded file. Opening the file enters as
 * an outcome; `Seek`/`ReadFull` on the open file become prefixes of its contents.
 */
module Validate {
  import opened Wrappers
  import opened Bytes

  /** Size of the header buffer. */
  const HeaderLen: nat := 4
  /** Size of the diagnostic buffer read after a signature mismatch. */
  const DiagnosticLen: nat := 200
  /** The bytes '%', 'P', 'D', 'F'. */
  const PdfMagic: seq<byte> := [0x25, 0x50, 0x44, 0x46]

  /** The two errors `io.ReadFull` reports when the file is shorter than the buffer. */
  datatype ReadError = EOF | UnexpectedEOF

  datatype ReadResult = ReadResult(data: seq<byte>, err: Option<ReadError>)

  /**
   * `io.ReadFull` of an `n`-byte buffer from the start of a file: the bytes read, and an
   * error unless the buffer was filled (EOF when nothing at all was read).
   */
  function ReadFull(file: seq<byte>, n: nat): (r: ReadResult)
    ensures |r.data| == Min(n, |file|) && r.data == file[..|r.data|]
    ensures r.err.None? <==> n <= |file|
    ensures r.err == Some(EOF) <==> n > 0 && file == []
  {
    if n <= |file| then ReadResult(file[..n], None)
    else if file == [] then ReadResult([], Some(EOF))
    else ReadResult(file, Some(UnexpectedEOF))
  }

  /** `bytes.HasPrefix`. */
  predicate HasPrefix(s: seq<byte>, prefix: seq<byte>)
  {
    |prefix| <= |s| && s[..|prefix|] == prefix
  }

  datatype ValidationError =
    | OpenError                          // the file could not be opened
    | HeaderError(cause: ReadError)      // fewer than 4 bytes could be read
    | NotAPdf(startsWith: seq<byte>)     // the file's leading bytes, for the message

  /**
   * Accepts exactly the files that open and start with `%PDF`. A file shorter than the header
   * fails at the header read; any other file is rejected with its first 200 bytes (all of it
   * when shorter) as the diagnostic.
   */
  function ValidatePdf(file: Option<seq<byte>>): (r: Outcome<ValidationError>)
    ensures r.Pass? <==> file.Some? && |file.value| >= HeaderLen && file.value[..HeaderLen] == PdfMagic
    ensures file.None? ==> r == Fail(OpenError)
    ensures file.Some? && |file.value| < HeaderLen ==>
      r == Fail(HeaderError(if file.value == [] then EOF else UnexpectedEOF))
    ensures file.Some? && |file.value| >= HeaderLen && file.value[..HeaderLen] != PdfMagic ==>
      r == Fail(NotAPdf(file.value[..Min(DiagnosticLen, |file.value|)]))
  {
    match file
    case None => Fail(OpenError)
    case Some(contents) =>
      var header := ReadFull(contents, HeaderLen);
      if header.err.Some? then Fail(HeaderError(header.err.value))
      else if !HasPrefix(header.data, PdfMagic) then
        // Seek(0, 0), then a second ReadFull whose error is ignored
        var diagnostic := ReadFull(contents, DiagnosticLen);
        Fail(NotAPdf(diagnostic.data))
      else Pass
  }
}
