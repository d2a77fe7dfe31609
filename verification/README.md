# libapreq2, modelled

Dafny models of libapreq2's request parsers, of the codecs and buffers under them, and of the
Apache input filter that feeds them, with proofs that their answers do not depend on how the
network cuts a request into pieces.

Input arrives as a *brigade*, a list of buckets of bytes that may end in EOS (`Brigade.dfy`), over
any number of calls. Every resumable parser is proved in the same way. A reference reader reads
the whole byte stream at once, with no buckets, no calls and no state to resume. Each method of
the parser takes a ghost parameter `rest`, the bytes still to come, and keeps what the reference
makes of the bytes at hand followed by `rest`. As `rest` is arbitrary, every cut of the stream
into buckets and calls gives the same result. Then printers are given for forms, header blocks,
query strings and cookies, and what is printed is proved to be read back.

| files | what they model |
|---|---|
| `Boundary.dfy`, `Streams.dfy` | `apreq_index` and the resumable delimiter splitter |
| `Headers.dfy`, `HeaderRoundTrip.dfy` | the header block parser |
| `Attributes.dfy` | `apreq_header_attribute` |
| `Spool.dfy` | partial writes, temporary files, `apreq_brigade_concat` |
| `MultipartSpec.dfy`, `MultipartLaws.dfy`, `Multipart.dfy` | the multipart reference, its laws, and the state machine |
| `MultipartRoundTrip.dfy`, `FormRoundTrip.dfy`, `MultipartRuns.dfy` | printed forms, and whole runs of the parser |
| `Memory.dfy` | the one memory codecs and vectors work on |
| `UrlCodec.dfy`, `UrlDecoder.dfy`, `UrlVectors.dfy`, `UrlEncoder.dfy`, `UrlEscapes.dfy` | URL decoding, in place and in pieces, and encoding |
| `Bytes.dfy`, `Characters.dfy` | bytes and the character classes |
| `QueryStrings.dfy`, `UrlBodies.dfy`, `UrlAgreement.dfy`, `UrlRuns.dfy` | the two url-encoded parsers, and where they agree |
| `Join.dfy` | `apreq_join` over the codecs |
| `Filter.dfy` | the input filter |
| `Cookies.dfy`, `CookieRoundTrip.dfy`, `Quoting.dfy` | cookie headers and quoting |
| `Cp1252.dfy` | Windows-1252 to UTF-8 |

Where the code departs from its documentation the model follows the code:

- The splitter restarts after a failed partial match by passing on the matched buckets unseen. For
  which delimiters that is exact is `Boundary.ExactIffRestartSafe`; the one of `MFD_INIT` is not
  among them, so outcomes are stated for preambles that hold no dash.
- A part without a body in the last bucket of the input is not noticed before another bucket or
  EOS arrives (`MultipartLaws.StartStringExact`).
- `apreq_decode` never reports a NUL of its source except in place: `url_decode` tests the pointer,
  not the byte. `%FE` and `%FF` leave a byte of the output unwritten unless the charset is Latin-1 or
  cp1252; nothing is stated of the output then.
- An error in a url-encoded body is reported as `APR_INCOMPLETE`, which means "send more", when the
  word that does not decode is ASCII with half an escape at its end, as in `a=%4`, at EOS as well
  (`UrlBodies.UrlParser.Parse`, `QueryStrings.CutIsHalf`, `UrlAgreement.CutIsReported`).
- The body parser takes everything up to `=` for a name, separators and all, and drops what is left
  without one; where it agrees with the query parser is `UrlAgreement.AgreeIffRegular`.
- `apreq_brigade_move` takes the bucket it is told to stop at along with those in front of it, so a
  read of the filter gives more than was asked for, unless that bucket is empty
  (`Filters.ReadIsExact`, `Filters.ReadOverruns`).
- `apreq_join` in decode mode takes the charset in the decoder's answer for an error, so it gives no
  string for values with other escapes than those of ASCII, as `%C3%A9` or `%u0041`, although they
  decode (`Joining.DecodedIffPlain`).
- A folded header line is counted as longer than it is (`Headers.CountDrift`).
- An attribute at the very front of a header is not found when blanks stand in front of its `=`
  (`Attributes.AttributeOfList`), and a `=` with less in front of it than the name looked for makes the
  library read in front of the header (`Attributes.NoRoom`).
- A NUL is quoted as `\0` and unquoted as `0` (`Quoting.UnescapeExact`).

## Model

| member | source | states |
|---|---|---|
| `MultipartRuns.ParseForm` | libapreq2/library/t/parsers.c:29-106 | forms as browsers and mailers write them, in any cut: fields, uploads, multipart/mixed lists of files, perhaps with a note that is no file, and parts with a Content-ID, with further header lines around the Content-Disposition, names in any case, attributes quoted or not in any order, perhaps one whose quote is never closed behind them, lines that end in CRLF or LF, and bytes behind a NUL, which C does not see, give exactly what the form says, in order; only a disk that fails stands in the way |
| `MultipartRuns.ParseRefused` | libapreq2/library/parser_multipart.c:318-475 | a form with a part that is refused, in any cut: form-data without a name, multipart/mixed without a boundary, neither disposition nor id, or a header line without a name, at the outer level or in a list of files: an error, with what stands in front of it, the files of the list as well, in the table |
| `MultipartRuns.ParseAnyForm` | libapreq2/library/parser_multipart.c:248-608 | the same for every form whose parts the library can tell by their headers, whatever those are, with or without bodies, in nested entities as well, behind a preamble without dashes: Success with just the parameters of the parts, and at most a wait where a part lacks its body and EOS has not come |
| `MultipartRuns.ParseCalls` | libapreq2/library/parser_multipart.c:248-608 | for every cut of a byte stream into buckets and calls the answer and the table are those of one reading of the whole stream (`MultipartSpec.Run`); it stays Incomplete only without EOS, and then on a finished body, or one that is in error, only behind a part that has no body. Nothing is claimed where that reading is Vague, or where EOS comes before the body is over |
| `MultipartRuns.Call` | libapreq2/library/parser_multipart.c:248-608 | one call of a run keeps the outcome of the whole stream, whatever is still to come |
| `Multipart.MultipartParser.Parse` | libapreq2/library/parser_multipart.c:248-608 | in every state and for every continuation `rest` of the stream: Success exactly in MFD_COMPLETE with the table and epilogue of the reference reading, Incomplete leaves a state from which the rest is read to the same outcome, an error is the reference's error; an error or completion reached before is kept; the call terminates on every input |
| `Multipart.MultipartParser.RunTurns` | libapreq2/library/parser_multipart.c:276-608 | the goto loop: each turn lowers (bytes still to be dealt with, state rank), although MFD_POST_HEADER pushes two bytes back and MFD_MIXED runs a nested parser |
| `Multipart.MultipartParser.Turn` | libapreq2/library/parser_multipart.c:276-608 | one turn keeps the outcome and lowers the measure |
| `Multipart.MultipartParser.TurnAlone` | libapreq2/library/parser_multipart.c:278-581 | the same for the states that have nothing to do with nested entities |
| `Multipart.MultipartParser.TakeIn` | libapreq2/library/parser_multipart.c:274-274 | a new brigade joins the bytes waiting, behind those of an unfinished header or nested entity |
| `Multipart.MultipartParser.DoInit` | libapreq2/library/parser_multipart.c:280-291 | the delimiter without CRLF is found behind a preamble that holds no dash, and the preamble handed back; MFD_NEXTLINE is entered with an empty output brigade |
| `Multipart.MultipartParser.DoNextLine` | libapreq2/library/parser_multipart.c:295-314 | text in front of CRLF ends the body and what follows is handed back, no text begins a part |
| `Multipart.MultipartParser.DoHeader` | libapreq2/library/parser_multipart.c:318-336 | a part's header block is read as the reference reads it, over any number of calls |
| `Multipart.MultipartParser.FindBody` | libapreq2/library/parser_multipart.c:340-373 | a part without a body gets its CRLF back |
| `Multipart.MultipartParser.DoPostHeader` | libapreq2/library/parser_multipart.c:340-475 | the part goes on as field, upload or nested entity as its header says |
| `Multipart.MultipartParser.BeginPart` | libapreq2/library/parser_multipart.c:377-475 | a part begins as what its header makes it, and goes on to the outcome of the stream |
| `Multipart.MultipartParser.Begin` | libapreq2/library/parser_multipart.c:412-474 | a field or an upload begins, empty |
| `Multipart.MultipartParser.BeginNested` | libapreq2/library/parser_multipart.c:398-410 | a nested parser is made for the boundary of the part |
| `Multipart.FindKind` | libapreq2/library/parser_multipart.c:375-475 | what a header makes of a part: Content-Disposition with name and filename, multipart/mixed, or Content-ID |
| `Multipart.FindBoundary` | libapreq2/library/parser_multipart.c:203-246 | the boundary attribute behind the first semicolon of the content type |
| `Multipart.MultipartParser.DoParam` | libapreq2/library/parser_multipart.c:479-529 | the field gets exactly the bytes in front of the next delimiter, those of earlier calls included; the output brigade is left empty |
| `Multipart.MultipartParser.DoUpload` | libapreq2/library/parser_multipart.c:534-581 | the same for an upload, whose bytes may have gone to a temporary file meanwhile |
| `Multipart.MultipartParser.KeepUpload` | libapreq2/library/parser_multipart.c:541-574 | what was split off goes to the upload, and the table gets the parameter with all its bytes when it is over |
| `Multipart.MultipartParser.DoMixed` | libapreq2/library/parser_multipart.c:585-601 | a nested entity keeps the outcome of the stream, and hands what follows it to the enclosing entity |
| `MultipartRoundTrip.ReadForm` | libapreq2/library/parser_multipart.c:248-608 | a printed form with any headers is read from its first byte as its parts, with its epilogue left over |
| `MultipartRoundTrip.ReadBefore` | libapreq2/library/parser_multipart.c:295-601 | what is printed behind a delimiter is read as its parts, whatever follows them |
| `MultipartRoundTrip.TextCloses` | libapreq2/library/parser_multipart.c:295-314 | any text without CRLF behind a delimiter ends the entity |
| `Characters.MultipartDelimiter` | libapreq2/library/parser_multipart.c:203-246 | section 5.1.1 of RFC 2046: two dashes and the boundary, behind CRLF but for the first, and two dashes behind the last |
| `MultipartRoundTrip.GroupFails` | libapreq2/library/parser_multipart.c:585-601 | an error in a nested entity is one of the entity around it, and keeps the parts in front of it |
| `MultipartRoundTrip.ReadAfter` | libapreq2/library/parser_multipart.c:295-601 | the same behind any delimiter, for nested entities as well |
| `MultipartRoundTrip.BodyRead` | libapreq2/library/parser_multipart.c:342-373 | a body that does not begin with the delimiter is not taken for one |
| `MultipartRoundTrip.BareRead` | libapreq2/library/parser_multipart.c:342-373 | a delimiter right behind the header is noticed and makes the part empty |
| `FormRoundTrip.ReadPrint` | libapreq2/library/parser_multipart.c:248-608 | such a form is read as what it says, on the whole stream |
| `FormRoundTrip.ReadRefused` | libapreq2/library/parser_multipart.c:318-475 | the same for a part that is refused, on the whole stream |
| `FormRoundTrip.FormGood` | libapreq2/library/parser_multipart.c:375-475 | names, file names and Content-IDs come out of the headers as they went in, whatever other attributes and lines there are; a part of a list without a file name is a field |
| `FormRoundTrip.MarkRead` | libapreq2/library/parser_multipart.c:203-246 | the boundary of a nested entity is found among other attributes, quoted or not |
| `MultipartLaws.StartStringExact` | libapreq2/library/parser_multipart.c:68-106 | the delimiter behind a header is noticed if and only if it is there whole and one more bucket lies behind it |
| `MultipartLaws.StartStringLaw` | libapreq2/library/parser_multipart.c:68-106 | each answer of brigade_start_string tells how the stream begins |
| `Boundary.SplitOnBdry` | libapreq2/library/parser_multipart.c:109-199 | the splitter does to the two brigades what the step function `Scan` does, for any layout, pattern or none |
| `Boundary.ExactIffRestartSafe` | libapreq2/library/parser_multipart.c:109-199 | the splitter is exact on every bucket layout if and only if no later occurrence of the delimiter's first byte begins something other than a prefix of it |
| `Boundary.UnsafeIsInexact` | libapreq2/library/parser_multipart.c:157-169 | a layout on which an unsafe delimiter that is there whole is missed |
| `Boundary.DelimiterSafety` | libapreq2/library/parser_multipart.c:282-282 | CRLF and CRLF--token (without CR) are safe; --token, as MFD_INIT uses it, only if the token is all dashes |
| `Boundary.ScanConserves` | libapreq2/library/parser_multipart.c:109-199 | no byte is lost or moved past another; without a match what stays behind is a proper prefix of the delimiter |
| `Boundary.ScanExact` | libapreq2/library/parser_multipart.c:109-199 | with a safe delimiter nothing passed on begins an occurrence, not even one cut off by the end |
| `Boundary.ScanClean` | libapreq2/library/parser_multipart.c:109-199 | with any delimiter the splitter stops in front of the first one when its first byte does not occur before |
| `Boundary.Turn` | libapreq2/library/parser_multipart.c:117-196 | one turn of the loop is one step of the model |
| `Boundary.SearchBucket` | libapreq2/library/parser_multipart.c:173-185 | pattern search and partial search of one bucket together give the first position from which bucket and delimiter agree |
| `Boundary.Index` | libapreq2/library/util.c:88-110 | the first full match, or the first position from which both agree as far as they reach |
| `Streams.CutOfSplit` | libapreq2/library/parser_multipart.c:109-199 | the split of the buckets at hand against the first occurrence in the whole stream, whatever is still to come |
| `HeaderRoundTrip.ParseHeaderBlock` | libapreq2/library/parser_header.c:153-353 | printed header lines and an empty line, in any buckets and calls, give exactly those fields; the bytes behind are handed back or not asked for |
| `HeaderRoundTrip.ParseHeaderCalls` | libapreq2/library/parser_header.c:153-353 | every run of the parser over unfolded lines gives the fields, the error or the wait of one reading of the whole stream |
| `HeaderRoundTrip.ReadBlockPrinted` | libapreq2/library/parser_header.c:153-353 | section 3.1 of RFC 822: blanks behind the colon are dropped, CRLF or a bare LF is, and the value is kept |
| `HeaderRoundTrip.ReadStop` | libapreq2/library/parser_header.c:213-235 | any line without a colon ends the block |
| `HeaderRoundTrip.ReadNameless` | libapreq2/library/parser_header.c:47-150 | a line that begins with its colon is an error, and the lines in front of it are kept |
| `Headers.HeaderParser.Parse` | libapreq2/library/parser_header.c:153-353 | one call keeps the reading of the whole block and hands back what follows it |
| `Headers.HeaderParser.ParseLine` | libapreq2/library/parser_header.c:175-345 | one line is read as the reference reads it, or waited for |
| `Headers.ScanLine` | libapreq2/library/parser_header.c:175-345 | the counters and bucket cuts of the scan mark name, gap and value of the line |
| `Headers.CountDrift` | libapreq2/library/parser_header.c:209-345 | how far the counters are from the bytes they count: every fold behind text adds one, an LF behind blanks alone is missing |
| `Headers.CountedRight` | libapreq2/library/parser_header.c:209-345 | a line is counted right if and only if it has as many such folds as it ends in such an LF |
| `Headers.FoldedIsLonger` | libapreq2/library/parser_header.c:298-303 | the line a:b, folded once, is counted as a byte longer than it is |
| `Headers.ScanBucket` | libapreq2/library/parser_header.c:179-350 | one bucket of the scan |
| `Headers.ByteTurn` | libapreq2/library/parser_header.c:209-349 | one byte of the scan in its state, with the cuts it makes |
| `Headers.ScanByte` | libapreq2/library/parser_header.c:213-345 | the state and counters behind one byte |
| `Headers.SplitHeaderLine` | libapreq2/library/parser_header.c:47-150 | name and value are the bytes the counters mark, without CRLF; an empty name is refused, and the library's asserts do not fail on unfolded lines |
| `Attributes.HeaderAttribute` | libapreq2/library/util.c:1019-1089 | the scan finds what the function `Attribute` says |
| `Attributes.AttributeOfList` | libapreq2/library/util.c:1019-1089 | on a list of token=value attributes, each quoted or not, with blanks around = and any text in between, the lookup gives the raw text of the first one whose whole name matches, never text of another value or behind a longer name; only a name at the very front with blanks in front of its = is passed over |
| `Attributes.UnclosedQuote` | libapreq2/library/util.c:1019-1089 | an attribute whose quote is never closed ends the lookup, unless the match lies in front of it |
| `Attributes.LeadingEquals` | libapreq2/library/util.c:1027-1028 | = at the very front of a header are passed over |
| `Attributes.NoRoom` | libapreq2/library/util.c:1030-1038 | where the first = has no room for the name in front of it the library reads in front of the header |
| `Attributes.ScanValue` | libapreq2/library/util.c:1038-1076 | where a value begins and ends |
| `Spooling.Fwritev` | libapreq2/library/util.c:840-889 | whatever short writes the system makes: success removes at least one iovec and the file holds just the bytes taken off; no progress is an error |
| `Spooling.BrigadeFwrite` | libapreq2/library/util.c:891-928 | success leaves exactly the flattened brigade in the file and reports its length; an error leaves a front part of it |
| `Spooling.Spool.Concat` | libapreq2/library/util.c:1151-1257 | contents grow by the bytes added; they are in the file from the moment they reach the limit, and stay there; behind EOS nothing is added |
| `Spooling.SpoolCalls` | libapreq2/library/util.c:1151-1257 | over any calls: the contents are the bytes of all brigades, in the file alone exactly from the limit on; only a call behind EOS is refused, and only a disk that fails gives an error |
| `Spooling.Spool.Keep` | libapreq2/library/util.c:1174-1185 | below the limit the buckets stay in memory |
| `Spooling.Spool.Spill` | libapreq2/library/util.c:1187-1256 | at the limit everything is written out |
| `Spooling.Spool.StartSpool` | libapreq2/library/util.c:1187-1202 | what is in memory is written to a new file |
| `Spooling.Spool.Append` | libapreq2/library/util.c:1218-1256 | a brigade is written behind the spool bucket, which is extended over it, and its EOS kept |
| `Spooling.Spool.FileHoldsAll` | libapreq2/library/util.c:1187-1249 | the file holds the contents and nothing else |
| `UrlDecoder.UrlDecode` | libapreq2/library/util.c:315-568 | decoding in place or to a place apart gives the bytes, lengths, charset, status and residue of `Decode`, and writes no further than the length of its input plus one |
| `UrlDecoder.Step` | libapreq2/library/util.c:322-560 | one turn of the loop consumes and writes one token |
| `UrlDecoder.StepLead` | libapreq2/library/util.c:356-493 | an escaped lead byte, with the continuation bytes behind it or without |
| `UrlDecoder.StepEscape` | libapreq2/library/util.c:332-498 | an escaped byte |
| `UrlDecoder.WriteUtf8` | libapreq2/library/util.c:519-530 | a %u escape as UTF-8 |
| `UrlDecoder.CheckFragment` | libapreq2/library/util.c:254-271 | text is taken for the beginning of UTF-8 exactly if it can go on to be escaped continuation bytes |
| `UrlDecoder.CheckEnc8` | libapreq2/library/util.c:242-252 | n escaped continuation bytes stand there |
| `UrlVectors.DecodeV` | libapreq2/library/util.c:599-639 | decoding pieces, each residue carried in front of the next and decoded again in place, is decoding the whole: same bytes, length, status and charset, within the whole length plus one |
| `UrlVectors.ApreqDecode` | libapreq2/library/util.c:571-597 | the same for one text; only in place is a NUL in front of the first escape an error |
| `UrlCodec.DecodeInPieces` | libapreq2/library/util.c:315-639 | for every split of a text the second part, decoded behind the residue of the first, gives what the whole gives |
| `UrlEncoder.ApreqEncode` | libapreq2/library/util.c:642-669 | the output is `Encode` of the input, NUL-terminated, at most three times as long |
| `UrlEncoder.EncodeDecode` | libapreq2/library/util.c:315-669 | on bytes below 0xFE decoding what was encoded gives it back, or stops in front of a UTF-8 sequence the end cuts short, with just its encoding left over |
| `UrlEncoder.DecodeEncoded` | libapreq2/library/util.c:315-669 | decoding encoded bytes is reading the bytes themselves by the charset rules |
| `UrlEncoder.DecodeWellFormed` | libapreq2/library/util.c:315-669 | ASCII and complete UTF-8 sequences always come back whole, as ASCII or UTF-8 |
| `UrlEscapes.HexDigits` | libapreq2/library/util.c:114-120 | the n-th byte of 0123456789abcdef, and of 0123456789ABCDEF, is worth n, and the latter is what the encoder writes |
| `UrlEscapes.UnicodeEscape` | libapreq2/library/util.c:501-530 | %u or %U and the four digits of a code point, the highest first, in either case, are read as UTF-8 of that character from ASCII or UTF-8, and are an error behind Latin-1 or cp1252 |
| `UrlEscapes.DecodeEitherCase` | libapreq2/library/util.c:315-669 | encoded bytes whose digits are in whatever case decode as the bytes read by the charset rules |
| `UrlEscapes.UnreservedSet` | libapreq2/library/util.c:642-669 | the encoder leaves the unreserved characters of section 2.3 of RFC 3986 as they are, writes + for a blank, and an escape for everything else |
| `UrlEscapes.NoEscape` | libapreq2/library/util.c:533-552 | behind plain text, a % is where decoding fails if and only if it begins neither an escape nor half of one |
| `UrlEscapes.FragmentExact` | libapreq2/library/util.c:254-271 | text at the end is taken for the beginning of a sequence exactly if it can go on to be escaped continuation bytes |
| `Characters.TokenSet` | libapreq2/library/util.c:1000-1017 | the tokens of section 2.2 of RFC 2616, and bytes beyond ASCII |
| `Characters.Delimiters` | libapreq2/library/param.c:148-158 | & and ; stand between words; blank, tab, line end, ; and , end an attribute that is not quoted |
| `Characters.Blanks` | libapreq2/library/parser_header.c:250-270 | the six blanks of C; space and tab alone make a gap or a fold |
| `Characters.Cases` | libapreq2/library/cookie.c:63-118 | only the letters have two cases |
| `Characters.Digits` | libapreq2/library/util.c:227-252 | the digits of an escape, and those a continuation byte begins with |
| `Characters.LeadBits` | libapreq2/library/util.c:356-493 | section 3 of RFC 3629: the one bits of a lead byte say how many continuation bytes follow it, with the five and six byte sequences of RFC 2279 |
| `UrlCodec.CharsetMonotone` | libapreq2/library/util.c:304-313 | the guess only moves from ASCII to UTF-8, Latin-1 and cp1252 |
| `QueryStrings.ParseQueryString` | libapreq2/library/param.c:140-185 | the table is that of the reference reading, word by word, up to the first word that does not decode; the code of that one is APR_INCOMPLETE exactly where it is cut short in ASCII |
| `QueryStrings.ParamDecode` | libapreq2/library/param.c:62-124 | name and value decode side by side in one buffer; an empty name or a bad escape is refused |
| `QueryStrings.MergeIsLater` | libapreq2/library/param.c:104-118 | the charset of a pair is the later of its two guesses |
| `QueryStrings.ReadPrinted` | libapreq2/library/param.c:127-185 | encoded pairs of well-formed UTF-8 with names, with any run of & and ; between them, are read back in order, as ASCII or UTF-8; an empty value may be left out with its = |
| `QueryStrings.ReadWords` | libapreq2/library/param.c:140-185 | any words, with names that may begin with = and values that may hold it, up to the end or a NUL, are read for what they stand for, a bare name with the empty value, up to the first that is refused |
| `QueryStrings.WhyRefused` | libapreq2/library/param.c:76-99 | half an escape in the value, or behind a value that decodes in the name, is APR_INCOMPLETE; an empty name and any other bad escape of the value are not |
| `UrlAgreement.BodyIsQuery` | libapreq2/library/parser_urlencoded.c:155-266 | where every word is a name, = and a value, with nothing but separators behind the last, the body parser reads what the query parser reads, also where they fail |
| `UrlAgreement.AgreeIffRegular` | libapreq2/library/parser_urlencoded.c:204-218 | and nowhere else: on NUL-free text the query parser accepts, both read the same if and only if the words are of that form |
| `UrlAgreement.OtherName` | libapreq2/library/parser_urlencoded.c:215-258 | otherwise the first name differs: the body parser's takes in the separators up to =, and is the longer one unless a word begins with = |
| `UrlAgreement.ReadBodyWords` | libapreq2/library/parser_urlencoded.c:155-266 | any words of a body, with names that may be empty or hold separators, are read for what they stand for, and text without = behind them is dropped |
| `QueryStrings.CutIsHalf` | libapreq2/library/util.c:533-548 | decoding is cut short in ASCII exactly on ASCII text with half an escape at its end |
| `UrlAgreement.CutIsReported` | libapreq2/library/parser_urlencoded.c:192-206 | the body a=%4 is such a text, and an error, at EOS as well |
| `UrlBodies.UrlParser.Parse` | libapreq2/library/parser_urlencoded.c:155-266 | one call keeps the reading of the whole body for every continuation, and what it waits with is less than a word; an error is kept, and reported as APR_INCOMPLETE if and only if the value of the refused word, or where that decodes its name, is cut short in ASCII |
| `UrlBodies.ScanWord` | libapreq2/library/parser_urlencoded.c:180-258 | the scan counts name and value and cuts the buckets behind = and the separator |
| `UrlBodies.SplitUrlWord` | libapreq2/library/parser_urlencoded.c:46-152 | the buckets counted decode to the pair, and leave the brigade; the code of a word that does not decode is APR_INCOMPLETE exactly where it is cut short in ASCII |
| `UrlBodies.DecodePieces` | libapreq2/library/util.c:599-639 | the bytes, charset and code of decoding collected pieces |
| `UrlBodies.Gather` | libapreq2/library/parser_urlencoded.c:72-114 | the iovecs of name or value, without the byte that ends them |
| `UrlBodies.UrlParser.ParseWord` | libapreq2/library/parser_urlencoded.c:174-264 | one word is parsed, waited for, or the last |
| `UrlBodies.UrlParser.TakeWord` | libapreq2/library/parser_urlencoded.c:187-253 | a whole word goes into the table or stops the parser |
| `UrlRuns.ParseBodyCalls` | libapreq2/library/parser_urlencoded.c:155-266 | every run over any buckets and calls gives the table of one reading of the whole body; without EOS the table lacks just what is left over, less than a word and its separator |
| `UrlRuns.ParseBothWays` | libapreq2/library/parser_urlencoded.c:155-266 | the body parser on the pieces and the query parser on the whole agree on regular text |
| `UrlRuns.ParsePrinted` | libapreq2/library/parser_urlencoded.c:155-266 | any list of pairs with =, printed with one separator between them and sent in any pieces, is parsed to that list |
| `Filters.RunFilter` | libapreq2/module/apache2/filter.c:255-404 | any interleaving of prefetches and reads, for all answers of upstream, any parser and any disk: bytes delivered and then bytes still spooled are those of exactly the answers upstream was asked for, in order; the parser was handed the very brigades of the first of them, within the limit and up to where it stopped; with a disk and an upstream that do not fail, a handler that reads on, by whatever positive amounts, gets the whole body, whatever was prefetched and wherever parsing ended |
| `Filters.Filter.DoPrefetch` | libapreq2/module/apache2/filter.c:255-325 | upstream is asked once, and just while the body is parsed and n is not zero; its answer is spooled and shown to the parser, unless the limit is passed; an answer is lost only if the disk fails, and then the last |
| `Filters.Filter.DoRead` | libapreq2/module/apache2/filter.c:329-404 | spooled buckets first, as many whole ones as `Takes` says; with none spooled upstream is asked once, unless reading has failed before, its answer goes through unchanged and the parser sees it on the way |
| `Filters.Filter.Pull` | libapreq2/module/apache2/filter.c:329-404 | the same once the filter has taken itself out of the chain, which it does only with nothing left to give |
| `Filters.Filter.Overhear` | libapreq2/module/apache2/filter.c:383-403 | an answer goes through and to the parser |
| `Filters.Filter.Show` | libapreq2/module/apache2/filter.c:309-324 | the limit is judged before the parser sees the answer; what the parser leaves is dropped |
| `Filters.Filter.SpoolCopy` | libapreq2/module/apache2/filter.c:281-291 | a copy of the answer joins the spool |
| `Filters.Filter.MoveSpooled` | libapreq2/module/apache2/filter.c:361-371 | a read takes whole buckets off the spool |
| `Filters.Filter.Partition` | libapreq2/module/apache2/filter.c:363-363 | n bytes lie in front of the bucket it finds, which is the first such one, cut in two if they end within it |
| `Filters.ReadIsExact` | libapreq2/module/apache2/filter.c:361-371 | a read of the spool gives at least what was asked for or all there is, and no more if and only if a bucket ends there and the one behind it, or behind EOS, has no bytes |
| `Filters.ReadOverruns` | libapreq2/module/apache2/filter.c:361-371 | without empty buckets, a read of less than everything always gives too much |
| `Filters.GaveBytes` | libapreq2/module/apache2/filter.c:387-400 | the bytes handed to the parser are those of the answers |
| `Filters.Filter.InitContext` | libapreq2/module/apache2/filter.c:111-187 | parsing begins exactly for a body with a length within the limit and a known type or a parser set before, whose own limit is lowered to the filter's; every other request gets the code `FirstStatus` states for it |
| `Filters.FirstStatus` | libapreq2/module/apache2/filter.c:111-187 | for each code the requests that get it |
| `CookieRoundTrip.ParsePrintedCookies` | libapreq2/library/cookie.c:263-366 | any list of legal cookies in any number of Netscape and RFC 2109 headers, those behind any version text, joined by ; and ,, with blanks and words without = wherever the library skips them, is parsed to that list, each attribute, in any spelling of its case and with - in front of it or not, on the cookie it follows: quoted path, domain, port, comment and commentURL without their quotes, secure, version, and the ones that are ignored |
| `CookieRoundTrip.ParseBrokenCookies` | libapreq2/library/cookie.c:295-361 | behind such cookies, text without = is NOTOKEN and an open quote BADSEQ, and every cookie is kept; an attribute is BADCHAR in front of any cookie, MISMATCH in a Netscape header, and where it has no =, an open quote, a short name or a version without a digit gets its own code, and then the cookie it follows is lost |
| `CookieRoundTrip.BrokenRead` | libapreq2/library/cookie.c:295-361 | the same on the reference reading |
| `CookieRoundTrip.KindApplies` | libapreq2/library/cookie.c:49-124 | which names set what: whole names for path and port, beginnings for the others |
| `CookieRoundTrip.AttrPair` | libapreq2/library/cookie.c:165-259 | unquoting gives back every NUL-free string quoted behind name= |
| `CookieRoundTrip.CookiePair` | libapreq2/library/cookie.c:165-259 | a cookie keeps its value as written, quotes and all |
| `Cookies.ParseCookieHeader` | libapreq2/library/cookie.c:263-366 | the goto parser terminates and its jar is that of the reference reading |
| `Cookies.ApreqGetPair` | libapreq2/library/cookie.c:165-259 | name, value and how far the scan went |
| `Cookies.ScanCookieName` | libapreq2/library/cookie.c:184-193 | the name in front of =, without blanks |
| `Cookies.ScanCookieValue` | libapreq2/library/cookie.c:198-258 | the value, quoted or not, with its backslashes taken out where asked |
| `Cookies.CookieTurn` | libapreq2/library/cookie.c:295-361 | one cookie, attribute or separator |
| `Quoting.QuoteIsQuoted` | libapreq2/library/util.c:671-739 | is_quoted accepts what apreq_quote makes of every non-empty string |
| `Quoting.QuoteOnceIdempotent` | libapreq2/library/util.c:691-702 | quoting once more is quoting once |
| `Quoting.QuotedWhenScanned` | libapreq2/library/util.c:671-689 | a string between quotes is quoted exactly when it holds no NUL and the scan for a closing quote stops at its last byte |
| `Quoting.UnescapeEscaped` | libapreq2/library/util.c:704-739 | taking the backslashes out gives the text back, with the digit 0 in place of every NUL |
| `Quoting.UnescapeExact` | libapreq2/library/util.c:718-722 | so quoting is undone exactly on the texts without NUL |
| `Quoting.ApreqQuote` | libapreq2/library/util.c:704-739 | the loop writes `Quote` of its input and a NUL, within twice its length and three bytes |
| `Quoting.ApreqQuoteOnce` | libapreq2/library/util.c:691-702 | text that is quoted already is copied, other text quoted |
| `Quoting.ApreqIsQuoted` | libapreq2/library/util.c:671-689 | the loop decides `IsQuoted` |
| `Cp1252.ConvertFaithful` | libapreq2/library/util.c:187-213 | section 3 of RFC 3629: the output is well-formed UTF-8 for exactly the characters of the input |
| `Cp1252.ConvertInjective` | libapreq2/library/util.c:187-213 | no two texts are converted to the same bytes |
| `Cp1252.UnicodeInverse` | libapreq2/library/util.c:145-184 | no two bytes are one character, and none is a surrogate |
| `Characters.Cp1252Table` | libapreq2/library/util.c:145-184 | the table, as the characters Windows-1252 has there |
| `Cp1252.ToUtf8` | libapreq2/library/util.c:187-213 | the output fits in three times the input and a NUL |
| `Joining.ApreqJoin` | libapreq2/library/util.c:741-838 | the values, each as its mode copies it, with the separator between, or no string where one is refused |
| `Joining.JoinInto` | libapreq2/library/util.c:778-836 | the codecs write straight into the space the first pass has counted, and nothing outside it changes, whatever the values are |
| `Joining.CopyPiece` | libapreq2/library/util.c:782-833 | one value is copied, encoded, decoded or quoted straight to where it goes |
| `Joining.RoomStep` | libapreq2/library/util.c:758-776 | whatever is written for a value, with a separator and a NUL, is covered by what the value adds to the count, in every mode, also where decoding refuses it |
| `Joining.DecodedIffPlain` | libapreq2/library/util.c:794-809 | joining in decode mode gives a string if and only if every value is written in bytes as they are, + and escapes of ASCII, without %u; and then the values it stands for, joined |
| `Joining.PlainDecodes` | libapreq2/library/util.c:315-597 | text decodes whole with the charset left at ASCII if and only if it is written like that |
| `Joining.DecodedIffAscii` | libapreq2/library/util.c:794-809 | so well-formed values that the encoder wrote come back joined if and only if they are ASCII |
| `Joining.SplitJoined` | libapreq2/library/util.c:741-838 | joined with a byte that none of them holds, the values can be told apart again, empty ones and all |
| `Joining.EncodedApart` | libapreq2/library/util.c:784-792 | encoded and joined with a byte that encoding does not write, well-formed values come back, each from its own piece |
| `Joining.QuotedOnce` | libapreq2/library/util.c:812-821 | in quote mode every value that is not empty is quoted exactly once, whether it was quoted before or not |

## Left out

- Multipart.MultipartParser.Parse: nothing is claimed of a stream that EOS ends before the body is over, where the library takes EOS inside a header for the end of the header, of preambles that hold a dash, of a boundary that holds CR, of folded header lines or values that begin with a bare LF, and of parts for which the library reads outside an object; these are the outcomes Vague, and Open with EOS.
- MultipartRuns.ParseCalls: the same streams are left out of it.
- MultipartRuns.ParseForm: a temporary file that cannot be made or written ends the run with an error; what the table holds then is not stated.
- Headers.HeaderParser.Parse: a folded line, and a value that begins with LF, are not read by the reference, as what the library makes of a wrong count rests on how the buckets are cut.
- UrlDecoder.UrlDecode: the contents of the output are not stated when `%FE` or `%FF` leaves a byte unset; the bound on what is written is.
- UrlVectors.DecodeV: an error has no charset here, as in the library, while `apreq_decode` adds one to its codes; where a caller's answer depends on it, it is added (`UrlBodies.DecodePieces`, `QueryStrings.DecodeAt`).
- Filters.RunFilter: after the last answer upstream gives nothing, and nothing behind EOS; a read that fails gives no buckets.
- Spooling.Spool.Concat: totals stay below FILE_BUCKET_LIMIT, so that one spool bucket is enough; a brigade is not concatenated onto itself; a spool of which the front was read away is modelled by its bytes in `Filter.dfy`.
- Cookies.ParseCookieHeader: expiry times are not kept, as they rest on the clock.
- Aliasing of parameters and table entries: a parameter is put in the table as a value when it is complete, while the library adds a pointer to it before the last bytes of an upload are written.
- Temporary files, pools, bucket allocation, setaside and logging: a file is its bytes and a position, and allocation does not fail.
- Upload hooks, the XML hook and the generic hook chain: user callbacks.
- CGI, custom and Apache 1.3 handles: thin drivers over the same parsers.
- Moving filters in the filter chain, and modes of the filter other than AP_MODE_READBYTES: calls into the server.
- `apreq_cookie_expires`, cookie serialisation, `apreq_atoi64f` and `apreq_atoi64t`: dates and number parsing of APR.
- EBCDIC branches, Perl glue, `mod_R.c`, build and packaging files.
