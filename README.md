# Download handler of spring-boot-tus, modelled in Dafny

The download side of the tus server answers `GET …/{uploadId}`: it looks the
upload up in the file repository, answers 404 when there is no record, and
otherwise streams the stored blob back as `application/octet-stream` with a
`Content-Disposition` header that carries the original file name. The name is
escaped octet by octet (`escapeUtf8FileName`), after the percent-encoding idea
of section 3.2.1 of RFC 5987:

- the octets of `0-9`, `a-z`, `A-Z`, `-`, `_` and `.` are copied;
- the C0 control octets 0x00–0x1F and DEL 0x7F each become `_`;
- every other octet becomes `%` and two upper-case hexadecimal digits.

The Java code makes the first two tests on the signed `byte` and its `(char)`
cast. Octets from 0x80 up therefore reach the third case, and `%02X` prints
their unsigned value. The model keeps octets unsigned (`Bytes.byte`). It writes
Java's signed view out in `JavaLang` (`Signed`, `CharCast`, `FormatterUnsigned`,
`FormatPercentHex02`), and `FileNameEscape.SignedTestsAgree` proves that the
signed tests classify every octet as the list above says.

Files and modules:

- `bytes.dfy` (`Bytes`): the octet type and hexadecimal digits.
- `wrappers.dfy` (`Wrappers`): `Option`.
- `java_lang.dfy` (`JavaLang`): the signed `byte`, the `(char)` cast, `String.format("%%%02X", b)` on a `Byte`, and `Long.parseLong`.
- `utf8.dfy` (`Utf8`): UTF-8 encoding, standing for `String.getBytes(UTF_8)`.
- `filename_escape.dfy` (`FileNameEscape`): the escaper.
  - `Escape` is the recursive specification.
  - `EscapeUtf8FileName` is the Java loop, proved equal to it.
  - `PercentDecode` is the inverse used in the round-trip lemmas.
- `download_handler.dfy` (`DownloadHandler`): `Handle`, the response decision.
  - The repository is a `map<int, UploadRecord>`.
  - The response is a status, a header map and a body descriptor `BlobRead(directory, fileName, bufferSize)`.
  - A malformed id yields `NumberFormatException`.
  - `ParseDisposition` reads a header value back.

Three consequences of the code as written:

- Percent-decoding the escaped name does not always give the original octets back. Every control octet becomes `_`, so decoding gives the octets with each control octet replaced by 0x5F (`DecodeEscape`). The exact round trip holds only for names without control characters (`DecodeEscapeExact`, `DecodeEscapeFileName`). Two names can share an escape (`ControlsCollide`).
- The `filename*` value is wrapped in quotes (`utf-8''"…"`). The grammar of RFC 5987 and of section 4.3 of RFC 6266 does not allow that. The model keeps the quotes, literally.
- The blob's file name is the raw path-variable text, not the parsed number. So `042` finds record 42 but reads the file `042` (`HandleRawIdText`). For canonical decimal text the two agree (`HandleCanonicalId`).

## Model

| member | source | states |
|---|---|---|
| `JavaLang.Signed` | src/main/java/priv/dino/tus/server/manage/handler/DownloadHandler.java:56 | the Java `byte` of an octet is the unique value in -128..127 congruent to it modulo 256 |
| `JavaLang.CharCast` | src/main/java/priv/dino/tus/server/manage/handler/DownloadHandler.java:57 | `(char)b` is the octet itself below 0x80 and the octet plus 0xFF00 (sign extension) from 0x80 up |
| `JavaLang.FormatterUnsigned` | src/main/java/priv/dino/tus/server/manage/handler/DownloadHandler.java:72 | the value `%X` prints for a `Byte` lies in 0..255 and is congruent to the byte modulo 256 |
| `JavaLang.FormatPercentHex02` | src/main/java/priv/dino/tus/server/manage/handler/DownloadHandler.java:72 | `String.format("%%%02X", b)` is '%' followed by exactly the two upper-case hex digits of the unsigned value |
| `JavaLang.TwoHexDigits` | src/main/java/priv/dino/tus/server/manage/handler/DownloadHandler.java:72 | an octet's hexadecimal text zero-padded to width 2 is its high and its low digit |
| `JavaLang.ParseLong` | src/main/java/priv/dino/tus/server/manage/handler/DownloadHandler.java:36 | a parsed id always lies in the 64-bit signed range |
| `JavaLang.ParseLongDecimal` | src/main/java/priv/dino/tus/server/manage/handler/DownloadHandler.java:36 | parsing reads back the canonical decimal text of every non-negative `long` |
| `JavaLang.ParseLongNegativeDecimal` | src/main/java/priv/dino/tus/server/manage/handler/DownloadHandler.java:36 | parsing reads back '-' followed by the decimal text of every negative `long` |
| `JavaLang.DigitsValueOfDecimal` | src/main/java/priv/dino/tus/server/manage/handler/DownloadHandler.java:36 | the value of the decimal digits of n is n |
| `Utf8.EncodeScalar` | src/main/java/priv/dino/tus/server/manage/handler/DownloadHandler.java:54 | a character takes 1 to 4 octets; exactly one, equal to its code, iff it is ASCII; otherwise every octet is at least 0x80 |
| `Utf8.DecodeEncodeScalar` | src/main/java/priv/dino/tus/server/manage/handler/DownloadHandler.java:54 | decoding a character's octets gives its scalar value back |
| `Utf8.Encode` | src/main/java/priv/dino/tus/server/manage/handler/DownloadHandler.java:54 | a name of n characters takes between n and 4n octets |
| `Utf8.EncodeAppend` | src/main/java/priv/dino/tus/server/manage/handler/DownloadHandler.java:54 | encoding a concatenation is the concatenation of the encodings |
| `Utf8.EncodeAscii` | src/main/java/priv/dino/tus/server/manage/handler/DownloadHandler.java:54 | an ASCII name encodes to one octet per character, equal to its code |
| `FileNameEscape.SignedTestsAgree` | src/main/java/priv/dino/tus/server/manage/handler/DownloadHandler.java:57-72 | the tests on the signed byte and its char cast are: octet is a digit/letter/`-_.`, octet is 0x00–0x1F or 0x7F; the percent text is that of the unsigned octet |
| `FileNameEscape.EscapeByte` | src/main/java/priv/dino/tus/server/manage/handler/DownloadHandler.java:57-72 | an octet contributes one character when it is a digit, letter, `-`, `_`, `.` or a control octet, and otherwise a three-character triplet starting with `%` |
| `FileNameEscape.Escape` | src/main/java/priv/dino/tus/server/manage/handler/DownloadHandler.java:55-74 | n octets escape to between n and 3n characters (the empty input to the empty string) |
| `FileNameEscape.EscapeFileName` | src/main/java/priv/dino/tus/server/manage/handler/DownloadHandler.java:53-75 | a name of n characters escapes to between n and 12n characters |
| `FileNameEscape.EscapeUtf8FileName` | src/main/java/priv/dino/tus/server/manage/handler/DownloadHandler.java:53-75 | the loop over the UTF-8 octets builds exactly the escape of the name |
| `FileNameEscape.EscapeAlphabet` | src/main/java/priv/dino/tus/server/manage/handler/DownloadHandler.java:58-72 | the escape uses only digits, ASCII letters, `-`, `_`, `.` and `%` |
| `FileNameEscape.EscapeAppend` | src/main/java/priv/dino/tus/server/manage/handler/DownloadHandler.java:55-73 | escape(a ++ b) == escape(a) ++ escape(b) |
| `FileNameEscape.EscapeAt` | src/main/java/priv/dino/tus/server/manage/handler/DownloadHandler.java:56-73 | each octet contributes its own piece between the pieces of the octets before and after it |
| `FileNameEscape.EscapeHighOctets` | src/main/java/priv/dino/tus/server/manage/handler/DownloadHandler.java:72 | octets from 0x80 up give exactly one `%XX` triplet each, in order |
| `FileNameEscape.EscapeNonAsciiChar` | src/main/java/priv/dino/tus/server/manage/handler/DownloadHandler.java:54-72 | a non-ASCII character escapes to one `%XX` triplet per octet of its UTF-8 encoding, at least two |
| `FileNameEscape.EscapeFileNameFixedPoint` | src/main/java/priv/dino/tus/server/manage/handler/DownloadHandler.java:58-66 | a name escapes to itself if and only if it consists of digits, ASCII letters, `-`, `_` and `.` |
| `FileNameEscape.EscapeFileNameAppend` | src/main/java/priv/dino/tus/server/manage/handler/DownloadHandler.java:54-74 | escaping a concatenation of names is the concatenation of their escapes |
| `FileNameEscape.DecodeEscape` | src/main/java/priv/dino/tus/server/manage/handler/DownloadHandler.java:58-72 | percent-decoding the escape gives the octets back with each control octet replaced by `_` |
| `FileNameEscape.DecodeEscapeExact` | src/main/java/priv/dino/tus/server/manage/handler/DownloadHandler.java:58-72 | without control octets, percent-decoding the escape gives exactly the input octets |
| `FileNameEscape.EncodeHasNoControls` | src/main/java/priv/dino/tus/server/manage/handler/DownloadHandler.java:54 | the UTF-8 octets of a name without control characters contain no control octet |
| `FileNameEscape.DecodeEscapeFileName` | src/main/java/priv/dino/tus/server/manage/handler/DownloadHandler.java:54-74 | for a name without control characters, percent-decoding its escape gives its UTF-8 octets |
| `FileNameEscape.ControlsCollide` | src/main/java/priv/dino/tus/server/manage/handler/DownloadHandler.java:67-69 | a line feed and an underscore both escape to `_` |
| `FileNameEscape.EscapeAcuteE` | src/main/java/priv/dino/tus/server/manage/handler/DownloadHandler.java:54-72 | `é` escapes to `%C3%A9` |
| `FileNameEscape.EscapeResume` | src/main/java/priv/dino/tus/server/manage/handler/DownloadHandler.java:54-74 | `résumé.pdf` escapes to `r%C3%A9sum%C3%A9.pdf` |
| `DownloadHandler.Disposition` | src/main/java/priv/dino/tus/server/manage/handler/DownloadHandler.java:40 | for a name without `"`, both quoted parameters of the header read back as that name |
| `DownloadHandler.DispositionIsOneLine` | src/main/java/priv/dino/tus/server/manage/handler/DownloadHandler.java:40 | the header built from an escaped name has no CR and no LF |
| `DownloadHandler.Handle` | src/main/java/priv/dino/tus/server/manage/handler/DownloadHandler.java:33-51 | unparsable id: NumberFormatException; parsed id without record: 404 with no headers and no body; with record: 200, the Content-Disposition of the escaped UTF-8 name, `application/octet-stream`, body `fileDirectory/uploadId` in 4096-octet buffers |
| `DownloadHandler.HandleDispositionReadsBack` | src/main/java/priv/dino/tus/server/manage/handler/DownloadHandler.java:38-42 | on a 200 the header parses back to the escaped name twice, has no CR/LF, and the escaped name decodes to the name's octets with controls as `_` |
| `DownloadHandler.HandleCanonicalId` | src/main/java/priv/dino/tus/server/manage/handler/DownloadHandler.java:36-48 | for canonical decimal text the outcome is 200 iff the id has a record, and the body reads the file named by the id |
| `DownloadHandler.HandleResume` | src/main/java/priv/dino/tus/server/manage/handler/DownloadHandler.java:36-44 | record 42 `résumé.pdf`: 200, the header `attachment; filename="r%C3%A9sum%C3%A9.pdf"; filename*=utf-8''"r%C3%A9sum%C3%A9.pdf"`, octet-stream, body `dir/42` in 4096-octet buffers |
| `DownloadHandler.HandleMissing` | src/main/java/priv/dino/tus/server/manage/handler/DownloadHandler.java:48 | no record 99: empty 404 without Content-Disposition |
| `DownloadHandler.HandleRawIdText` | src/main/java/priv/dino/tus/server/manage/handler/DownloadHandler.java:36-44 | `042` and `42` get the same headers but the blob file names `042` and `42` |
| `DownloadHandler.HandleMalformedId` | src/main/java/priv/dino/tus/server/manage/handler/DownloadHandler.java:36 | empty text, a lone `-` or `+`, a non-digit, and any decimal above or negative decimal below the `long` range throw NumberFormatException |

## Left out

- The reactive pipeline (`Mono`, `flatMap`, `switchIfEmpty`, `doOnNext`) is not modelled as scheduling; only the decision it computes is.
- `DataBufferUtils.read` and the actual streaming are not modelled: the chunks, cancellation, memory bounds, a missing blob and I/O errors. The body is the descriptor `BlobRead(directory, fileName, 4096)`.
- `FileRepository.findById` is a map from id to record; its reactive and storage behaviour is not modelled.
- The log line at line 45, the Spring annotations, dependency injection and the path semantics of `Paths.get` are left out; the body keeps the pair (directory, name).
- How the framework turns the `NumberFormatException` into an HTTP status is not part of this model.
- ParseLong: accepts only the ASCII digits 0–9, whereas `Character.digit` in `Long.parseLong` also accepts other Unicode decimal digits.
- Utf8.Encode: encodes Unicode scalar values; Java strings are UTF-16, and `getBytes` turns an unpaired surrogate into `?`, a case Dafny strings cannot hold.
- UploadRecord: the original name is always a string. In the code a record whose `getOriginalName()` is null makes `getBytes` at line 54 throw a NullPointerException inside `flatMap`, and the request fails; that path is not modelled.
