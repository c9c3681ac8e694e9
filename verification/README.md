# A verified model of the JSON and HTTP core of the Azure SDK for Embedded C

The project models the parts of the SDK that read and write bytes in place, and proves what
they promise:

* the pull JSON parser (a reader and one 64-bit integer that is the stack of open
  containers), the JSON-pointer lookup that drives it, and the recursive reader that prints
  what it reads;
* the JSON builder, which keeps one bit for the commas of all depths, and the key-creation
  body built with it;
* number scanning with 18 digits, a sticky remainder and a 16-bit exponent, and the 64-bit
  decimal readers and printers;
* spans: slices, copies, appends, the overlapping splice, percent-encoding and the form body;
* the URL builder over one buffer and an index;
* the restartable HTTP response reader.

Each component has two layers. The lower one states, as functions on byte sequences, what a
call returns and what it leaves behind, on success and on failure; the theorems are about
these functions. The upper one is the code in its own form: classes whose fields are updated
in place, loops over spans, arrays written through. Every method is proved to compute the
function below it.

| files | content |
|---|---|
| Basics, Views, Spans | bytes, results, read-only spans, writable spans |
| JsonString, JsonNumber, JsonNumberValue, Decimal, DecimalPrinter | the lexical layer |
| JsonSyntax | tokens, trees and the grammar: RFC 8259 over bytes, with an optional trailing comma |
| JsonMachine, JsonWalk, JsonSkip, JsonStack | the parser as a state machine, the traversal and its language, skipping, runs |
| JsonTruncated | which errors a longer text could mend |
| JsonPointer, JsonLookup, JsonPartial | pointers, the lookup against a tree lookup, and on texts that are no documents |
| JsonReader, PointerReader, JsonParser, JsonRewrite | the same code as written, with its loops and its integer stack |
| JsonBuilder, JsonPrint, KeyVault | the builder, printing trees, the key-creation body |
| Separated, UrlEncode, HttpRequest, HttpResponse | percent-encoding and form body, URLs, responses |

`dafny verify dfyconfig.toml` checks everything.

## What the code does that its documentation does not say

* The parser accepts one trailing comma before a close
  (sdk/core/core/src/az_json_parser.c, lines 352-356 and 375-378). The accepted language is
  stated with it.
* Array indexes in pointers go through az_span_to_uint64 (sdk/core/core/src/az_json_get.c,
  line 40), so leading zeros are accepted, unlike in section 4 of RFC 6901.
* An exponent that does not fit an int16_t wraps. `BracketsExactly` says exactly when the
  decimal brackets the number; `WrappedExponent` is an input for which it does not.
* `az_http_request_init` stores the index of the question mark, while the other two
  functions expect the index after it. `IntendedExactly` says exactly for which URLs and
  calls this makes no difference; `MisplacedPath` is an input for which it does.
* Names and STRING tokens are written raw by the builder; only SPAN tokens are escaped.
  Theorems that read the text back ask that raw texts be well-formed string bodies.
* A list of operations ends at the first empty span, and a list of tags at the first empty
  key, because an empty span equals the null span.

## Model

| member | source | states |
|---|---|---|
| JsonString.StringCharIsGrammar | sdk/core/core/src/az_json_string.c:87-137 | For every input the character reader succeeds exactly when the input starts with a character of section 7 of RFC 8259 (plain byte, two-byte escape, \uXXXX), and consumes exactly that character. |
| JsonString.StringCharValue | sdk/core/core/src/az_json_string.c:26-58 | The unit read is the one that the character stands for: the byte itself, the entry of the escape table of section 7, or the number of four hex digits. |
| JsonString.StringRestReads | sdk/core/core/src/az_json_parser.c:243-265 | A well-formed string body, a quote and anything else: the scan returns exactly the body and stops just after the quote. |
| JsonString.StringRestFound | sdk/core/core/src/az_json_parser.c:243-265 | Conversely, whatever the scan accepts is a well-formed body followed by a quote. |
| JsonString.UnitsDefined | sdk/core/core/src/az_json_string.c:87-137 | Repeated character reads decode a text to its end exactly when it is a well-formed body. |
| JsonString.UpperHex | sdk/core/core/src/az_hex_private.h:19 | The digit printed for n is read back by the hex reader as n. |
| JsonString.HexDigitExactly | sdk/core/core/src/az_json_string.c:13-24 | A byte is read as the hex digit v exactly when it is the v-th letter of 0123456789ABCDEF or of 0123456789abcdef. |
| JsonString.UpperHexExactly | sdk/core/core/src/az_hex_private.h:19 | The writers use the upper-case alphabet. |
| JsonNumber.NumberReads | sdk/core/core/src/az_json_parser.c:146-241 | Every number of section 6 of RFC 8259, followed by the end or by a byte that cannot continue it, is consumed exactly. |
| JsonNumber.NumberFound | sdk/core/core/src/az_json_parser.c:146-241 | Whatever the scanner accepts starts with the text of such a number, and that is what it consumed. |
| JsonNumberValue.ScannedHolds | sdk/core/core/src/az_json_parser.c:101-144 | After any number, value * 10^k <= significand < (value + 1) * 10^k with k the count of dropped digits, value <= 10^18 - 1, the remainder is set exactly when the first inequality is strict, and the exponent is the 16-bit wrap of the true one. |
| JsonNumberValue.BracketsExactly | sdk/core/core/src/az_json_parser.c:109-144 | value * 10^exp <= abs(N) < (value + 1) * 10^exp holds if and only if the number is zero or its true exponent fits an int16_t. |
| JsonNumberValue.RemainderExactly | sdk/core/core/src/az_json_parser.c:124-135 | When the exponent fits, the remainder is false exactly when value * 10^exp = abs(N). |
| JsonNumberValue.EighteenDigitsAreExact | sdk/core/core/src/az_json_parser.c:101-144 | Up to 18 significant digits nothing is dropped: the value is the whole significand and the remainder is clear. |
| JsonNumberValue.WrappedExponent | sdk/core/core/src/az_json_parser.c:227-236 | A concrete text whose exponent wraps: 1e65536 is read as 1 with exponent 0, which does not bracket it. |
| JsonReader.SkipWhiteSpace | sdk/core/core/src/az_json_parser.c:29-38 | What the loop drops is whitespace in the sense of section 2 of RFC 8259 (the bytes 20, 09, 0A, 0D), and what is left does not start with any. |
| JsonReader.ReadStringChar | sdk/core/core/src/az_json_string.c:87-137 | The reader as written, with its four-digit loop, returns and leaves exactly what the character function says, on success and on failure. |
| JsonReader.GetStringRest | sdk/core/core/src/az_json_parser.c:243-265 | The body, measured by a difference of capacities, is the body of the specification; the reader stays tight (capacity = length). |
| JsonReader.GetNumberInt | sdk/core/core/src/az_json_parser.c:117-144 | The digit loop computes the fold over the digit run and stops at the first non-digit. |
| JsonReader.GetNumber | sdk/core/core/src/az_json_parser.c:146-241 | Sign, integer, fraction and exponent as written compute the scanner function, with its errors. |
| JsonSyntax.TextAppends | sdk/core/core/src/az_json_parser.c:268-363 | The text relation of the grammar is compositional: the text of a value before any continuation is its own text and then that continuation. |
| JsonSyntax.Spelled | sdk/core/core/src/az_json_parser.c:345-347 | Braces belong to objects and brackets to arrays, and the literals spell true, false and null. |
| JsonMachine.SkipSpaceExactly | sdk/core/core/src/az_json_parser.c:29-38 | Exactly the whitespace of section 2 of RFC 8259 at the start is skipped. |
| JsonMachine.ParseItemProgress | sdk/core/core/src/az_json_parser.c:365-426 | A member or item read that succeeds, or that finds the close, consumes at least one byte; ItemNotFound comes only from a close. |
| JsonWalk.ItemReads | sdk/core/core/src/az_json_parser.c:402-426 | One member or item call on well-formed text delivers the name and token of that item and stands exactly where the grammar says. |
| JsonWalk.KidsRead | sdk/core/core/test/main.c:58-96 | Reading the children of a well-formed container one by one delivers their trees and ends just after its close, the comma after it included. |
| JsonWalk.KidsFound | sdk/core/core/test/main.c:58-96 | If such a traversal succeeds, on any input, the bytes it consumed are the items and the close of a well-formed container. |
| JsonWalk.DocumentReads | sdk/core/core/test/main.c:103-110 | Every document of the extended grammar nested at most 63 deep is accepted and its tree is delivered, with nothing left. |
| JsonWalk.DocumentFound | sdk/core/core/test/main.c:103-110 | Every accepted byte string is the text of such a document. |
| JsonWalk.AcceptedLanguage | sdk/core/core/src/az_json_parser.c:323-435 | For every byte string: the full traversal and the final check succeed if and only if it is an RFC 8259 document, extended with one trailing comma in non-empty containers, nested at most 63 deep; and the tokens are those of the derived tree. |
| JsonTruncated.ErrorsAreFinal | sdk/core/core/src/az_json_parser.c:88-435 | On any text an error other than EOF (or the unguarded read at the end) stays the same whatever is appended. |
| JsonTruncated.TruncatedDocument | sdk/core/core/src/az_json_parser.c:88-435 | Every prefix of an accepted text is accepted or fails at its end. |
| JsonTruncated.AtEndIsAtEnd | sdk/core/core/src/az_json_parser.c:88-435 | The end of the text is reported only with fewer than five bytes unread, a piece of a literal at most. |
| JsonSkip.SkipFollowsWalk | sdk/core/core/src/az_json_parser.c:451-475 | A skip that is to end at an outer stack reads, on any input, exactly the items of the inner container first: the outer bits stay a prefix until the matching close. |
| JsonSkip.SkipChildrenIsWalk | sdk/core/core/src/az_json_parser.c:437-475 | On any input, skipping the children of the token just read ends as the recursive traversal does: same error, or same reader position and same stack. |
| JsonStack.StackIsOpenBrackets | sdk/core/core/src/az_json_parser.c:54-81 | After any run of calls that each returned AZ_OK or AZ_ERROR_ITEM_NOT_FOUND, the unread bytes are a suffix of the input and the stack is exactly the brackets open outside strings in the consumed prefix, at most 63 of them. |
| JsonStack.RunTracks | sdk/core/core/src/az_json_parser.c:54-81 | The same from any intermediate state: what a run consumes changes the open brackets as it changes the stack. |
| JsonStack.OverflowExactly | sdk/core/core/src/az_json_parser.c:62-69 | Reading a value fails with NESTING_OVERFLOW exactly on an opening bracket at depth 63. |
| JsonStack.WrongKindExactly | sdk/core/core/src/az_json_parser.c:365-387 | A member or item call fails with JSON_INVALID_STATE exactly when the innermost open container is not of its kind, and then changes nothing. |
| JsonParser.DecodeEncode | sdk/core/core/src/az_json_parser.c:17-22 | A stack of kinds written as sentinel and bits is decoded to itself. |
| JsonParser.EncodeDecode | sdk/core/core/src/az_json_parser.c:54-60 | Every integer from 1 on is the encoding of the stack it decodes to. |
| JsonParser.DecodeInjective | sdk/core/core/src/az_json_parser.c:471 | Comparing the two stack integers compares the two stacks. |
| JsonParser.FullExactly | sdk/core/core/src/az_json_parser.c:62-69 | Bit 63 is set exactly when 63 containers are open. |
| JsonParser.JsonParser.constructor | sdk/core/core/src/az_json_parser.c:83-86 | The parser starts with the whole text and an empty stack. |
| JsonParser.JsonParser.PushStack | sdk/core/core/src/az_json_parser.c:62-69 | A push succeeds exactly below depth 63, adds the kind on top and leaves the state alone otherwise. |
| JsonParser.JsonParser.PopStack | sdk/core/core/src/az_json_parser.c:71-81 | A pop succeeds exactly on a non-empty stack and removes the top. |
| JsonParser.JsonParser.GetValueToken | sdk/core/core/src/az_json_parser.c:268-311 | The dispatch on the first byte, with reader and integer stack updated in place, does what the value function says. |
| JsonParser.JsonParser.ParseRootToken | sdk/core/core/src/az_json_parser.c:323-343 | The root call: invalid state inside a container, EOF after a lone opening bracket, and no bytes after a scalar. |
| JsonParser.JsonParser.ReadCommaOrClose | sdk/core/core/src/az_json_parser.c:349-363 | A comma with its whitespace is consumed, a matching close is left, anything else is an error. |
| JsonParser.JsonParser.CheckItemBegin | sdk/core/core/src/az_json_parser.c:365-387 | A close pops the stack, consumes the bracket, the whitespace and a comma after it, and reports ITEM_NOT_FOUND. |
| JsonParser.JsonParser.ParseTokenMember | sdk/core/core/src/az_json_parser.c:402-416 | The member call refines the item function for objects, in every case and error. |
| JsonParser.JsonParser.ParseArrayItem | sdk/core/core/src/az_json_parser.c:418-426 | The item call refines the item function for arrays. |
| JsonParser.JsonParser.CheckDone | sdk/core/core/src/az_json_parser.c:428-435 | Done is reported exactly when nothing is unread and nothing is open. |
| JsonParser.JsonParser.SkipAllChildren | sdk/core/core/src/az_json_parser.c:437-475 | The loop that compares stack integers refines the skip function, and terminates on every input because each round consumes a byte. |
| JsonParser.JsonParser.GetByPointerToken | sdk/core/core/src/az_json_get.c:30-64 | One pointer step on the running parser: index loop for arrays, name loop for objects, ITEM_NOT_FOUND for scalars. |
| JsonParser.JsonParser.ItemAt | sdk/core/core/src/az_json_get.c:38-49 | The index loop reads and skips exactly the items before the wanted one. |
| JsonParser.JsonParser.MemberNamed | sdk/core/core/src/az_json_get.c:50-60 | The name loop stops at the first member whose name equals the token, and terminates. |
| JsonParser.JsonParseByPointer | sdk/core/core/src/az_json_get.c:66-91 | The whole streaming lookup as written computes the lookup function. |
| JsonPointer.TokenEqExactly | sdk/core/core/src/az_json_get.c:9-28 | The comparison is true exactly when both texts are well formed and decode to the same units. |
| JsonPointer.JoinReads | sdk/core/core/src/az_json_pointer.c:58-99 | Reading from a pointer joined from escaped tokens returns the first token, empty or not, and leaves the join of the others. |
| JsonPointer.JoinTokens | sdk/core/core/src/az_json_pointer.c:9-99 | For every list of byte strings, joining and reading back gives the list. |
| JsonPointer.PointersAreJoins | sdk/core/core/src/az_json_pointer.c:9-99 | Every pointer that can be read to its end is the join of the tokens read. |
| JsonPointer.PointerCharExactly | sdk/core/core/src/az_json_pointer.c:9-56 | One character is read, and it stands for what section 4 of RFC 6901 says: itself, or ~ for ~0 and / for ~1; the errors at the end, at a separator and after a bad escape. |
| JsonPointer.EscapeByteExactly | sdk/core/core/src/az_json_pointer.c:25-47 | Escaping a byte gives a character that stands for it. |
| PointerReader.ReadPointerChar | sdk/core/core/src/az_json_pointer.c:9-56 | The pointer character reader as written, with its escapes and errors. |
| PointerReader.ReadPointerToken | sdk/core/core/src/az_json_pointer.c:58-99 | The token reader as written; the token is measured by capacities. |
| PointerReader.PointerTokenEqJsonString | sdk/core/core/src/az_json_get.c:9-28 | The comparison loop returns true exactly when both sides decode, and to the same units. |
| PointerReader.SpanToUint64 | sdk/core/core/src/az_span.c:51-72 | The loop as written computes the reading function, overflow test included. |
| JsonLookup.IndexAgrees | sdk/core/core/src/az_json_get.c:38-49 | On well-formed items the index search ends at the token of the i-th child, or with ITEM_NOT_FOUND past the last. |
| JsonLookup.MemberAgrees | sdk/core/core/src/az_json_get.c:50-60 | On well-formed members the name search ends at the first child whose decoded name is the decoded token, or with ITEM_NOT_FOUND. |
| JsonLookup.DescendAgrees | sdk/core/core/src/az_json_get.c:66-91 | From right after any token, descending along a pointer in the text agrees with looking it up in the tree below that token. |
| JsonLookup.LookupRefines | sdk/core/core/src/az_json_get.c:66-91 | For every document and every pointer, well formed or not, the streaming lookup returns the token found in the tree, or the same error. |
| JsonLookup.LookupIsWalkLookup | sdk/core/core/src/az_json_get.c:66-91 | The same without naming a document: on every text that the full traversal accepts. |
| JsonLookup.LookupFollowsPath | sdk/core/core/src/az_json_get.c:30-91 | Looking up the join of any list of tokens follows them in the tree: first member with that decoded name, item by az_span_to_uint64, ITEM_NOT_FOUND for a missing one and below a scalar. |
| JsonLookup.FirstNamedExactly | sdk/core/core/src/az_json_get.c:50-60 | The kid found under a name is the one of least index with that decoded name; none is found only if there is none. |
| JsonPartial.PartsAreWalk | sdk/core/core/test/main.c:58-96 | What is delivered before a traversal stops is the whole tree if it succeeds, and is cut by its error if it fails. |
| JsonPartial.LookupOnAnyText | sdk/core/core/src/az_json_get.c:66-91 | For every byte string, truncated and broken ones included, and every pointer, the streaming lookup answers what is found in what the traversal delivers before it stops: a token, nothing in a scalar or a closed container, a bad pointer, or the error that cut the container. |
| JsonPartial.UnreadableIsWalkError | sdk/core/core/src/az_json_get.c:66-91 | A lookup that fails because the text cannot be read reports the error of the full traversal. |
| JsonRewrite.RewriteItems | sdk/core/core/test/main.c:58-96 | The loop over the children, which reads and prints in turn: it succeeds exactly when the traversal does and its text fits. |
| JsonRewrite.RewriteToken | sdk/core/core/test/main.c:40-101 | The recursive reader and printer: the parser ends where the traversal does and the compact text, numbers as 0, has been appended. |
| JsonRewrite.ReadWrite | sdk/core/core/test/main.c:103-110 | The whole function succeeds exactly when the input is in the accepted language and the compact text fits the output. |
| JsonRewrite.RewrittenTwice | sdk/core/core/test/main.c:103-110 | The rewritten text of any accepted document is accepted, and rewriting it again changes nothing. |
| JsonBuilder.Builder.AppendStr | sdk/core/core/src/az_json_builder.c:11-20 | Names and STRING tokens are appended raw between quotes. |
| JsonBuilder.Builder.WriteSpan | sdk/core/core/src/az_json_builder.c:22-56 | A SPAN token is appended byte by byte, each byte escaped where it has to be, between quotes. |
| JsonBuilder.Builder.AppendToken | sdk/core/core/src/az_json_builder.c:58-94 | The text and the error after the call, partial appends included, and the comma bit: set by scalars, cleared by openings. |
| JsonBuilder.Builder.AppendObject | sdk/core/core/src/az_json_builder.c:105-115 | The text after a member: comma if due, name, colon, token, stopping at the first append that does not fit. |
| JsonBuilder.Builder.AppendArrayItem | sdk/core/core/src/az_json_builder.c:131-138 | The text after an item, and the comma bit. |
| JsonBuilder.Builder.AppendClose | sdk/core/core/src/az_json_builder.c:117-144 | The closing bracket, after which a comma is due. |
| JsonBuilder.WriteSingles | sdk/core/core/src/az_span.c:330-342 | Appending digits one at a time writes exactly what fits. |
| JsonPrint.KidsText | sdk/core/core/src/az_json_builder.c:96-138 | The calls of any children print them with a comma before each but the first, at every depth, although only one bit is kept. |
| JsonPrint.TreeIsPrinted | sdk/core/core/src/az_json_builder.c:96-144 | Driving the builder through any tree appends its compact text if and only if that text fits the remaining capacity; on overflow a proper prefix of it has been appended. |
| JsonPrint.CompactIsTight | sdk/core/core/src/az_json_builder.c:96-144 | The compact text is that of a well-formed value without whitespace, trailing commas, fractions or exponents. |
| JsonPrint.EscapeChunkExactly | sdk/core/core/src/az_json_builder.c:30-53 | Each byte is written as itself, as a backslash and its letter of the table of section 7 of RFC 8259, or as \u00 and two upper-case digits, and which of the three. |
| JsonPrint.EscapedDecodes | sdk/core/core/src/az_json_builder.c:22-56 | For every byte sequence the escaped form is a well-formed string body that decodes to it. |
| JsonPrint.SpanRoundTrip | sdk/core/core/src/az_json_builder.c:22-56 | What write_span makes of any bytes is scanned as one string that ends exactly at the final quote, and decodes to them. |
| JsonPrint.IntegerScans | sdk/core/core/src/az_span.c:317-342 | A printed integer of at most 18 digits is scanned back exactly: same sign, same value, exponent 0, no remainder. |
| JsonPrint.PrintThenParse | sdk/core/core/src/az_json_builder.c:58-144 | For every tree with well-formed raw strings, integers below 10^18 in magnitude and depth at most 63, traversing its compact text gives the tree back, SPAN tokens as the strings they were escaped to. |
| JsonPrint.BuildThenParse | sdk/core/core/src/az_json_builder.c:96-144 | Builder and parser together: calls whose text fits leave a buffer from which the traversal recovers the tree. |
| Decimal.ToUint64Exactly | sdk/core/core/src/az_span.c:51-72 | Reading succeeds exactly on non-empty digit strings that denote at most 2^64 - 1, and returns that number. |
| Decimal.DigitsDenote | sdk/core/core/src/az_span.c:356-376 | The canonical digits denote the number and have no leading zero. |
| Decimal.Uint64RoundTrip | sdk/core/core/src/az_span.c:51-72 | Reading inverts printing for every 64-bit number. |
| DecimalPrinter.PaddedIsDigits | sdk/core/core/src/az_span.c:361-375 | Printing from the leading power of ten down gives the canonical digits. |
| DecimalPrinter.AppendUint64 | sdk/core/core/src/az_span.c:356-381 | The divisor loop appends the canonical digits, up to what fits, and succeeds exactly when all fit. |
| DecimalPrinter.AppendInt64 | sdk/core/core/src/az_span.c:383-392 | For every int64_t but the least: what has been appended is read back as the number, and it succeeds exactly when all fits. |
| DecimalPrinter.Int64RoundTrip | sdk/core/core/src/az_span.c:383-392 | The text starts with a minus sign exactly for negative numbers, the rest is read as the absolute value, and a signed reader inverts it. |
| DecimalPrinter.AppendDigits | sdk/core/core/src/az_span.c:320-343 | The separate do-while loop of the double printer appends the same canonical digits. |
| DecimalPrinter.AppendDouble | sdk/core/core/src/az_span.c:304-352 | Zero, sign and integral values are printed; any other value is NOT_IMPLEMENTED after the sign. |
| DecimalPrinter.DoubleRoundTrip | sdk/core/core/src/az_span.c:304-343 | What is printed for an integral value starts with a minus sign exactly when it is negative, and is read back as it. |
| DecimalPrinter.PrintersAgree | sdk/core/core/src/az_span.c:304-376 | Both printers print, for every 64-bit number, the text that az_span_to_uint64 reads back as it. |
| Views.Take | sdk/core/core/src/az_span_private.h:20-27 | The first n bytes and at most n of the capacity; the span itself when it is no larger. |
| Views.Drop | sdk/core/core/src/az_span_private.h:38-50 | All but the first n bytes and that much less capacity. |
| Views.Slice | sdk/core/core/src/az_span.c:17-29 | A slice holds the content between its bounds and its capacity equals its length, whatever the capacity was before. |
| Views.IsExpectedSpan | sdk/core/core/src/az_span.c:394-413 | It succeeds exactly when the text starts with the expected bytes, consumes them and nothing else, and otherwise changes nothing. |
| Spans.Copy | sdk/core/core/src/az_span.c:84-100 | A copy succeeds exactly when the source fits, writes those bytes and no others. |
| Spans.CopyWithin | sdk/core/core/src/az_span.c:84-100 | The same for overlapping windows of one buffer: the old source arrives. |
| Spans.MoveWithin | sdk/core/core/src/az_span.c:94 | Moving forwards or backwards, depending on the direction, loses no byte. |
| Spans.Append | sdk/core/core/src/az_span.c:224-235 | An append is all or nothing and succeeds exactly when the sum of the lengths fits. |
| Spans.Replace | sdk/core/core/src/az_span.c:268-302 | It succeeds exactly when start <= end <= length and the new length fits; the content is then old[..start] + new + old[end..], nothing outside the window changes, and a failure changes nothing. |
| Spans.Splice | sdk/core/core/src/az_span.c:286-298 | One overlapping move of the tail and one copy produce that content. |
| Spans.WriteAllExactly | sdk/core/core/src/az_span.c:224-235 | A row of appends succeeds exactly when the whole text fits, and otherwise stops at a proper prefix of it. |
| UrlEncode.DecodeEncoded | sdk/core/core/src/az_span.c:102-150 | Percent-decoding is a left inverse of the encoding, for every byte string. |
| UrlEncode.EncodeByteExactly | sdk/core/core/src/az_span.c:102-112 | The letters, digits and -._~ stand for themselves; every other byte becomes % and two upper-case hex digits. |
| UrlEncode.EncodedIsSafe | sdk/core/core/src/az_span.c:102-112 | An encoding holds unreserved characters and % only, hence no separator of form fields. |
| UrlEncode.EncodedSize | sdk/core/core/src/az_span.c:119-124 | The sizing pass yields the length of what the writing pass writes. |
| UrlEncode.CopyUrlEncode | sdk/core/core/src/az_span.c:114-150 | It succeeds exactly when the encoding fits and then writes it in place; a failure writes nothing. |
| UrlEncode.AppendUrlEncoded | sdk/core/core/src/az_aad.c:32-50 | The encoding is appended behind the content, or nothing changes. |
| UrlEncode.AadBuildBody | sdk/core/core/src/az_aad.c:65-85 | It succeeds exactly when the whole body fits, and then the body has been appended. |
| UrlEncode.BodyDecodes | sdk/core/core/src/az_aad.c:65-85 | Cut at ampersands and equal signs and percent-decoded, the body is grant_type=client_credentials, client_id, scope with the arguments, and client_secret exactly when there is one. |
| UrlEncode.BodyIsUnambiguous | sdk/core/core/src/az_aad.c:65-85 | Equal bodies come from equal client ids, scopes and secrets. |
| HttpRequest.ScanUntil | sdk/core/core/src/az_span.c:415-434 | The index found is the first that satisfies the predicate; ITEM_NOT_FOUND when there is none. |
| HttpRequest.Request.constructor | sdk/core/core/src/az_http_request.c:19-49 | The index kept is that of the first question mark, 0 when there is none. |
| HttpRequest.Request.AppendPath | sdk/core/core/src/az_http_request.c:51-76 | Two in-place replacements insert slash and path where the index says, and move the index along; what is left when one of them does not fit. |
| HttpRequest.Request.SetQueryParameter | sdk/core/core/src/az_http_request.c:78-108 | It succeeds exactly for non-empty name and value that fit, appends separator, name, =, value, and sets the index once; on overflow the old text and a proper prefix of the parameter stand there, and the index is set if the separator is. |
| HttpRequest.UrlInterleaving | sdk/core/core/src/az_http_request.c:51-108 | From a URL without a question mark, after any sequence of calls the URL is base, paths in call order, parameters in call order, and the index is 0 without parameters and otherwise one past the question mark. |
| HttpRequest.UrlReadsBack | sdk/core/core/src/az_http_request.c:51-108 | For arguments without separators the URL is read back: it starts with the base, the slashes cut its path into the paths in call order, and the query cut at ampersands and equal signs is the list of names and values in call order. |
| HttpRequest.UrlOfCalls | sdk/core/core/src/az_http_request.c:19-108 | The URL after any calls on any initial URL, question mark or not. |
| HttpRequest.IntendedExactly | sdk/core/core/src/az_http_request.c:30-57 | For every initial URL and every calls, paths and parameters end up where they belong if and only if there is no question mark, or it is not first and no path is added, or nothing is added, or only slashes are added next to a slash. |
| HttpRequest.MisplacedPath | sdk/core/core/src/az_http_request.c:30-57 | A concrete misplacement: path p on h?a gives /ph?a. |
| HttpResponse.StatusLineReads | sdk/core/core/src/az_http_response.c:56-100 | The status line of every well-formed response (section 3.1.2 of RFC 7230) is read back, and the reader stands at the first header. |
| HttpResponse.HeaderReads | sdk/core/core/src/az_http_response.c:119-203 | Every header field (section 3.2, no obs-fold) is read back with the optional whitespace trimmed. |
| HttpResponse.StepKeeps | sdk/core/core/src/az_http_response.c:102-235 | One call of any kind from any phase gives the promised reply and leads to the promised phase. |
| HttpResponse.EverySequenceOfCalls | sdk/core/core/src/az_http_response.c:56-235 | After any sequence of status line, header and body calls all replies are the promised ones (headers in order and once per restart, always the same body) and the reader is at the initial state, at a header suffix or at the body. |
| HttpResponse.GetHttpStatusLine | sdk/core/core/src/az_http_response.c:56-100 | The status line reader as written computes the reading function. |
| HttpResponse.GetFieldValue | sdk/core/core/src/az_http_response.c:177-200 | The value ends before the whitespace (the bytes 20 and 09) in front of the first carriage return, everything before which is visible or whitespace, and a line feed follows. |
| HttpResponse.FieldValueExactly | sdk/core/core/src/az_http_response.c:177-195 | The loop stops after the first carriage return and trims exactly the whitespace before it. |
| HttpResponse.HttpResponseReader.ReadLine | sdk/core/core/src/az_http_response.c:102-117 | Restarts the reader; the state moves on only on success. |
| HttpResponse.HttpResponseReader.ReadNextHeader | sdk/core/core/src/az_http_response.c:119-203 | A header, the end of the headers, or an invalid state, with the fields updated in place. |
| HttpResponse.HttpResponseReader.ReadBody | sdk/core/core/src/az_http_response.c:205-235 | From any state: restart if need be, skip the headers, return the rest. |
| KeyVault.AppendOperations | sdk/keyvault/keyvault/src/az_keyvault_client.c:185-197 | The loop over the operations makes the calls of the intended array, up to the null element. |
| KeyVault.AppendTags | sdk/keyvault/keyvault/src/az_keyvault_client.c:199-212 | The loop over the tags makes the calls of the intended object, up to the null key. |
| KeyVault.AppendBody | sdk/keyvault/keyvault/src/az_keyvault_client.c:159-216 | All calls together are the calls of the intended tree. |
| KeyVault.BuildJsonBody | sdk/keyvault/keyvault/src/az_keyvault_client.c:159-219 | It succeeds exactly when the compact text of the intended tree fits, and that text is then appended; otherwise the span of the caller is as before. |
| KeyVault.BodyLookup | sdk/keyvault/keyvault/src/az_keyvault_client.c:159-219 | With well-formed raw strings, a pointer lookup in the body follows the tokens in the intended tree. |
| KeyVault.KeyTypeFound | sdk/keyvault/keyvault/src/az_keyvault_client.c:171-172 | /kty looks up to the key type. |
| KeyVault.EnabledFound | sdk/keyvault/keyvault/src/az_keyvault_client.c:175-184 | /attributes/enabled looks up to the setting, and to ITEM_NOT_FOUND without one. |
| KeyVault.OperationFound | sdk/keyvault/keyvault/src/az_keyvault_client.c:185-197 | /key_ops/i looks up to the i-th operation, and to ITEM_NOT_FOUND past the last or without operations. |
| KeyVault.TagFound | sdk/keyvault/keyvault/src/az_keyvault_client.c:199-212 | /tags/key looks up to the value of the first tag whose key decodes to it, and to ITEM_NOT_FOUND without one. |
| KeyVault.TagValueExactly | sdk/keyvault/keyvault/src/az_keyvault_client.c:199-212 | That first tag is the one of least index with that decoded key. |
| KeyVault.MemberFound | sdk/keyvault/keyvault/src/az_keyvault_client.c:159-219 | A single token finds a member exactly if the options name it, and then a token of its kind. |
| KeyVault.AttributesMembers | sdk/keyvault/keyvault/src/az_keyvault_client.c:175-184 | The attributes hold enabled and nothing else. |
| KeyVault.BodyMembers | sdk/keyvault/keyvault/src/az_keyvault_client.c:159-219 | The traversal of the body is an object whose members are kty, attributes, key_ops, tags: the first always, the others exactly if the options name them, each once and in this order. |

## Left out

- JsonNumberValue.BracketsExactly: the conversion of the scanned decimal to a double (pow and a floating-point product) is not modelled; numbers are sign, value, remainder and exponent.
- DecimalPrinter.AppendDouble: doubles are real numbers of magnitude below 2^64; the fractional branches of the code return NOT_IMPLEMENTED and so does the model.
- DecimalPrinter.AppendInt64: excludes the least int64_t, whose negation overflows in the code.
- JsonPrint.PrintThenParse: numbers are integers of at most 18 digits, since the builder prints no others and the scanner keeps no more digits.
- JsonParser.JsonParser.ReadCommaOrClose: the code reads a byte without a length check; where the reader is empty the model returns the error OutOfBounds, which stands for undefined behaviour. The same holds for the unchecked reads of the response reader (sdk/core/core/src/az_http_response.c, lines 39, 77, 140 and 182).
- HttpResponse.EverySequenceOfCalls: stated for well-formed responses; on malformed ones the unchecked reads above are reached. Header names may be any bytes without a colon that do not start with a carriage return, which includes all tokens of RFC 7230.
- JsonBuilder.Builder.AppendObject: after a failed call the comma bit is not specified.
- Spans.Replace: the replacement and the sources of appends are passed as byte sequences, so a source that aliases the buffer it is written to is not modelled; az_span_is_overlap is left out with it. Lengths are unbounded: int32_t overflow of a sum of lengths is not modelled. The start index is not negative.
- JsonReader.GetNumber: narrowing to int16_t is taken as two's-complement wrap-around.
- NULL checks, raw pointers and the bit layout of error codes: spans are a buffer with offsets, or a sequence with a capacity; the null span is one without capacity.
- Unicode code points: string and pointer readers yield bytes or \u units, as in the code, and names are compared unit by unit.
- sdk/core/core/src/az_json_data.c and sdk/core/core/src/az_span_builder.c: not in the build, written against an older span type.
- The curl transport, credentials, token requests, the clock, the pipeline and its policies: I/O, foreign calls or forwarding.
- HTTP header lists and retry marks of the request, logging, token getters, case-insensitive comparison, swap and zero filling: they would add only easy members.
- az_aad_build_url and the other key-vault requests: straight lines of the appends modelled here.
