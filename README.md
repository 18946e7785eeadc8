# simple-mcp core, modelled in Dafny

This project models the locally written logic of the simple-mcp Go service and
proves properties of it. Four pieces make up the core:

- **Tolerant JSON extraction.** `cleanMarkdown` and `Parse` turn raw language-model
  output into the text handed to a JSON decoder. They try three steps in order:
  the first fenced code block, then the first brace-balanced object, then the
  whole text, trimmed. For a nil message `Parse` returns the zero value of the
  result type and no error. Otherwise it builds a fresh message holding only the
  Role, the cleaned Content and the ToolCalls of the input, and hands that to the
  decoder.
- **Identifiers.** `FormatID` mixes a timestamp and a counter into one unsigned
  64-bit value. It writes that value in base 36 from the back of a 32-byte buffer.
  `GenerateRandomID` cuts the URL-safe base64 text of random bytes to the
  requested length.
- **Coded errors.** `New`, `Wrap`, `GetCode` and `HasCode` decide which 4-digit
  code survives a wrap and how messages are concatenated.
- **String helpers.** These are `IsValidEmail`, `NormalizeEmail`, `NormalizeName`
  and `IsEmptyOrWhitespace`.

Files:

- `wrappers.dfy`: `Option`.
- `constants.dfy`: the ID alphabet, the e-mail limits and the error codes.
- `text.dfy`: explicit definitions of the Go library functions the core calls.
  These are `unicode.IsSpace`, RE2's `\s`, `strings.TrimSpace`, `strings.Index`,
  `strings.Fields`, `strings.Join` and ASCII case mapping. It also holds
  `LastIndexOf`, a helper of the hand-written e-mail recogniser.
- `parser.dfy`: modules `Parser` and `ParserProperties`.
- `ids.dfy`: module `Ids`.
- `errors.dfy`: modules `Errors` and `ErrorProperties`.
- `strings.dfy`: module `StringUtils`.

Facts about the code that a reader might not expect:

- Extraction never fails: every path returns a string. A first object whose
  braces never balance falls back to the trimmed whole text
  (`ParserProperties.UnbalancedFallsBack`).
- Extracting again from a result taken from a fenced block can change it
  (`ParserProperties.FencedResultNotStable`). Extracting again from any other
  result gives it back (`ParserProperties.CleanStableWithoutFence`).
- A fence tag that begins with `json`, such as `jsonc` or `json5`, loses only
  those four letters, and the rest of the tag opens the result
  (`ParserProperties.JsonPrefixTagCut`, `ParserProperties.JsonPrefixTagSample`).
- Brace counting ignores JSON string quoting (`ParserProperties.QuotedBracesCount`).
- Without an explicit code, `Wrap` keeps the code of the first `CustomError` in
  the error's unwrap chain, even under plain wrappers
  (`ErrorProperties.WrapSeesThroughWrappers`). It falls back to `InternalError`
  when the chain holds no `CustomError` (`ErrorProperties.PlainChainUnknown`).

## Model

| member | source | states |
|---|---|---|
| Parser.MatchFence | internal/repository/langchain/shared/parser.go:49-50 | The match reported for the pattern ```` (?s)```(?:json)?\s*(.*?)\s*``` ````, if any, is a genuine match of the pattern in the text. |
| Parser.MatchFenceIsLeftmostFirst | internal/repository/langchain/shared/parser.go:49-50 | Whenever the pattern matches at all, the reported match comes first in RE2's leftmost-first order. That means the earliest opening fence, the `json` tag taken when present, greedy `\s*` and the shortest lazy group. |
| Parser.FenceMatchExists | internal/repository/langchain/shared/parser.go:49-51 | A fence match exists exactly when a "```" at p is followed by another "```" starting at some q ≥ p+3. |
| Parser.CloseFrom | internal/repository/langchain/shared/parser.go:61-69 | The brace scan stops one past the first `}` at which the depth counted from the first `{` is zero. If it returns nothing, no such `}` exists. |
| Parser.FirstReturnToZero | internal/repository/langchain/shared/parser.go:60-71 | From the first `{`, the depth stays positive until the scan stops, and stays positive to the end when the scan never stops. |
| Parser.Clean | internal/repository/langchain/shared/parser.go:47-76 | What cleanMarkdown returns has no whitespace at either end. |
| Parser.CleanMarkdown | internal/repository/langchain/shared/parser.go:47-76 | The loop with its brace counter and early return computes exactly `Clean`: the fenced block, else the first balanced object, else the trimmed text. |
| Parser.CleanOnClose | internal/repository/langchain/shared/parser.go:58-68 | Without a fence, when the scan from the first `{` closes at e, the result is the trimmed span up to e. |
| Parser.CleanFallback | internal/repository/langchain/shared/parser.go:58-75 | Without a fence, and with no `{` or a scan that never closes, the result is `TrimSpace(content)`. |
| Parser.CleanedMessage | internal/repository/langchain/shared/parser.go:36-40 | The message given to the decoder keeps Role and ToolCalls, has the cleaned content, and leaves every other field empty. |
| Parser.Parse | internal/repository/langchain/shared/parser.go:26-43 | A nil message gives the zero value and no error. Otherwise the result is the decoder's answer on the cleaned message, returned unchanged. |
| ParserProperties.FencedBlockExtracted | internal/repository/langchain/shared/parser.go:49-53 | With a fence match, the opening fence is the first "```" and the closing fence is the first "```" at least three characters later. A lowercase `json` tag is skipped, and the result is the trimmed text between them. |
| ParserProperties.OtherTagKept | internal/repository/langchain/shared/parser.go:49 | A tag that does not begin with lowercase `json` is not stripped: its first character opens the result. |
| ParserProperties.JsonPrefixTagCut | internal/repository/langchain/shared/parser.go:49 | A tag that begins with lowercase `json` and goes on, such as `jsonc`, loses only those four letters: the character after them opens the result. |
| ParserProperties.JsonTagGlued | internal/repository/langchain/shared/parser.go:49-53 | A block "```json" followed directly by trimmed, backtick-free text, a newline and the closing fence gives exactly that text. |
| ParserProperties.JsonPrefixTagSample | internal/repository/langchain/shared/parser.go:49-53 | For "```jsonc\n{}\n```", the result is "c\n{}". |
| ParserProperties.LaterTextIgnored | internal/repository/langchain/shared/parser.go:49-53 | Replacing everything after the first block's closing fence, including any later fenced blocks, leaves the result unchanged. |
| ParserProperties.SameMatchAfterCut | internal/repository/langchain/shared/parser.go:49-50 | Cutting the text after the reported closing fence and appending anything leaves the reported match the same. |
| ParserProperties.BalancedObjectExtracted | internal/repository/langchain/shared/parser.go:58-68 | Without a fence, a span from the first `{` holds as many `{` as `}`, and each proper non-empty prefix of it holds more `{`. Then that span is the result, and it ends in `}`. |
| ParserProperties.NoObjectFallsBack | internal/repository/langchain/shared/parser.go:58-75 | Without a fence and without any balanced object, the result is the trimmed input. |
| ParserProperties.UnbalancedFallsBack | internal/repository/langchain/shared/parser.go:58-75 | Without a fence, when the depth from the first `{` never returns to zero, the result is the trimmed input and no error arises. |
| ParserProperties.WholeObjectUnchanged | internal/repository/langchain/shared/parser.go:58-71 | A backtick-free input that is one balanced object from its first character comes back unchanged. |
| ParserProperties.FirstCloseWins | internal/repository/langchain/shared/parser.go:61-68 | The first `}` after the opening `{` closes the object when no brace lies between them, whatever backtick-free text follows. |
| ParserProperties.QuotedBracesCount | internal/repository/langchain/shared/parser.go:61-67 | For `{"a": "}"}`, the `}` inside the quoted value ends the object, giving `{"a": "}`. |
| ParserProperties.CleanIsTrimmedSlice | internal/repository/langchain/shared/parser.go:53-75 | On every path the result is one contiguous slice of the input with no whitespace at either end. |
| ParserProperties.FencedJsonAmidProse | internal/repository/langchain/shared/parser.go:49-53 | A json-tagged block whose text is trimmed and backtick-free is extracted exactly, whatever backtick-free prose comes before it and whatever comes after it. |
| ParserProperties.FencedResultNotStable | internal/repository/langchain/shared/parser.go:49-75 | For "```json\nx{}\n```", extraction gives `x{}`, and extracting again gives `{}`. |
| ParserProperties.CleanStableWithoutFence | internal/repository/langchain/shared/parser.go:58-75 | When no fence matches, extracting again from the result gives the result back. |
| ParserProperties.CleanedObjectPassesThrough | internal/repository/langchain/shared/parser.go:33-40 | A message whose content is a backtick-free balanced object reaches the decoder with that content unchanged. |
| Ids.Mix | pkg/utils/id.go:22 | The value `uint64((t << 13) ^ (t >> 7) ^ c)` lies in [0, 2^64). |
| Ids.MixWrapsLeftShift | pkg/utils/id.go:22 | For the timestamp 2^60, the size of a present-day UnixNano value, `timestamp << 13` wraps to 0 and the mix is 2^53. |
| Ids.MixSignExtends | pkg/utils/id.go:22 | For the timestamp -1, the right shift keeps the sign and the mix is `-8192 ^ -1` = 8191. |
| Ids.MixCollides | pkg/utils/id.go:22 | Distinct inputs can collide: (1, 0) and (0, 8192) mix to the same value. |
| Ids.Base36 | pkg/utils/id.go:24-29 | Every digit is in the alphabet. The digits are empty exactly when the value is 0, and the first digit is never '0'. |
| Ids.Base36RoundTrip | pkg/utils/id.go:24-29 | Reading the digits back as base 36, most significant first, gives the value. |
| Ids.Base36Canonical | pkg/utils/id.go:24-29 | Every alphabet string without a leading '0' is the encoding of its own value, so the encoding is a bijection onto those strings. |
| Ids.Base36Injective | pkg/utils/id.go:24-29 | Distinct values give distinct identifiers. |
| Ids.AlphabetDigit | pkg/constants/validation.go:18 | The alphabet character at index d is the digit of value d: '0'–'9', then 'a'–'z'. |
| Ids.Base36Of64Bits | pkg/utils/id.go:20-28 | Every unsigned 64-bit value takes at most 13 digits, so the 32-byte buffer is never overrun. |
| Ids.LargestTakes13 | pkg/utils/id.go:20-28 | The largest 64-bit value takes all 13 digits, so the bound is tight. |
| Ids.FormatID | pkg/utils/id.go:20-29 | The identifier is the base-36 encoding of the mixed value, at most 13 characters long. |
| Ids.WriteBase36 | pkg/utils/id.go:23-29 | Filling the buffer from the back, one digit per division by 36, leaves the base-36 digits in the filled tail. |
| Ids.FormatIDCollision | pkg/utils/id.go:20-29 | (1, 0) and (0, 8192) give the same identifier. |
| Ids.EncodeGroup | pkg/utils/id.go:43 | Each group of 1 to 3 bytes becomes 4 characters. One more character than there are bytes is URL-safe, and the rest are '=' padding. |
| Ids.Base64Url | pkg/utils/id.go:43 | The padded URL-safe base64 text of n bytes has 4·⌈n/3⌉ characters. |
| Ids.Base64UrlShape | pkg/utils/id.go:43 | Its first (4n+2)/3 characters are URL-safe, and the rest are '='. |
| Ids.EncodedCoversLength | pkg/utils/id.go:38-43 | n ≤ (4n+2)/3 ≤ the encoded length, so slicing to n is in bounds and cuts no padding. |
| Ids.GenerateRandomID | pkg/utils/id.go:34-43 | A length ≤ 0 gives "length must be positive". A failed read gives "failed to generate random bytes: " and the reason. Otherwise there is no error, and the result is exactly `length` URL-safe characters from the front of the encoding of the random bytes. |
| Errors.ErrorText | pkg/errors/errors.go:17-19 | A CustomError's Error() is its message, verbatim. |
| Errors.AsCustomFindsFirst | pkg/errors/errors.go:48-50 | errors.As finds the first CustomError in the unwrap chain, and finds nothing exactly when the chain has none. |
| Errors.New | pkg/errors/errors.go:23-32 | The code is the one given. With a cause the message is `message + ": " + err.Error()`; without one it is `message`. |
| Errors.WrapCode | pkg/errors/errors.go:42-55 | A non-empty first explicit code wins. Otherwise the code of the first CustomError in the chain is used, and otherwise InternalError. |
| Errors.Wrap | pkg/errors/errors.go:36-61 | The result is nil exactly when the input is. Otherwise it is a CustomError with the WrapCode code and the message `message + ": " + err.Error()`. |
| Errors.GetCode | pkg/errors/errors.go:64-70 | The result is the code of the first CustomError in the chain, and UnknownError when there is none or the error is nil. |
| Errors.HasCode | pkg/errors/errors.go:73-75 | Holds exactly when GetCode gives the code. |
| ErrorProperties.WrapNil | pkg/errors/errors.go:37-39 | Wrapping nil gives nil, with code UnknownError, for any message and codes. |
| ErrorProperties.ExplicitCodeWins | pkg/errors/errors.go:43-45 | A non-empty explicit code becomes the code of the result. |
| ErrorProperties.OnlyFirstNonEmptyCodeCounts | pkg/errors/errors.go:43-45 | An explicit "" acts like no code, and codes after the first are ignored. |
| ErrorProperties.WrapKeepsOrDefaultsCode | pkg/errors/errors.go:47-55 | Without an explicit code, the code GetCode finds is kept, and InternalError is used when there is none. |
| ErrorProperties.WrapCustomKeepsCode | pkg/errors/errors.go:47-50 | Wrapping a CustomError without a code keeps its code. |
| ErrorProperties.WrapSeesThroughWrappers | pkg/errors/errors.go:47-50 | A CustomError under two plain wrappers still decides the code. |
| ErrorProperties.RewrapKeepsCode | pkg/errors/errors.go:36-61 | A second wrap without a code keeps the first wrap's code. |
| ErrorProperties.NestedMessages | pkg/errors/errors.go:59 | Two wraps give `m2 + ": " + m1 + ": " + err.Error()`. |
| ErrorProperties.NewCodeSurvivesWrap | pkg/errors/errors.go:23-61 | The code given to New survives a wrap without a code. |
| ErrorProperties.InternalAndDatabaseIndistinguishable | internal/constants/errors.go:17-18 | HasCode cannot tell InternalError from DatabaseError: both are "0500". |
| ErrorProperties.UnknownCodeAmbiguous | pkg/errors/errors.go:64-75 | `HasCode(err, UnknownError)` holds for nil, for a chain with no CustomError, and for a CustomError coded "0000", so it cannot tell them apart. |
| ErrorProperties.PlainChainUnknown | pkg/errors/errors.go:47-69 | An error with no CustomError in its chain has code UnknownError. Wrapping it gives InternalError. |
| StringUtils.MatchEmail | pkg/constants/validation.go:13 | The hand-coded recogniser accepts only texts the e-mail pattern matches. |
| StringUtils.MatchEmailComplete | pkg/constants/validation.go:13 | It accepts every text the pattern matches. |
| StringUtils.EmailSplitUnique | pkg/constants/validation.go:13 | A matching text has exactly one '@', and no '.' after the top-level dot. |
| StringUtils.PatternImpliesMinLength | pkg/constants/validation.go:7-13 | A matching text has at least 6 characters, so the lower limit of 3 never decides. |
| StringUtils.IsValidEmail | pkg/utils/string.go:14-20 | True exactly when the lowercased, trimmed address is 3 to 320 long and matches the pattern. |
| StringUtils.LengthWindow | pkg/utils/string.go:15-18 | An address whose normalised length is outside 3..320 is rejected. |
| StringUtils.NormalizeEmail | pkg/utils/string.go:23-25 | Trimming then lowercasing equals lowercasing then trimming, and the result is trimmed. |
| StringUtils.NormalizeEmailIdempotent | pkg/utils/string.go:23-25 | Normalising twice is normalising once. |
| StringUtils.ValidEmailNormalized | pkg/utils/string.go:14-25 | `IsValidEmail(NormalizeEmail(e)) == IsValidEmail(e)`. |
| StringUtils.AcceptedEmailShape | pkg/utils/string.go:14-20 | An accepted address, once normalised, has a single '@'. Before it is a non-empty local part, and after it a domain part, a '.', and two or more letters. It contains no upper-case letter. |
| StringUtils.TitleWordChars | pkg/utils/string.go:37-43 | A title-cased word keeps its length. Its first rune is upper-cased and every other rune is lower-cased. |
| StringUtils.NormalizeName | pkg/utils/string.go:28-47 | The nested in-place loops compute the title-cased fields of the trimmed name, joined by single spaces, and "" for a blank name. |
| StringUtils.TitleCaseWords | pkg/utils/string.go:36-45 | Rewriting `words[i]` in place leaves every word title-cased. |
| StringUtils.TitleCaseWord | pkg/utils/string.go:37-44 | A non-empty word goes through a rune buffer and comes back title-cased. An empty word is kept. |
| StringUtils.TitleCaseRunes | pkg/utils/string.go:38-42 | The rune loop upper-cases the first rune and lower-cases the rest, in place. |
| StringUtils.IsEmptyOrWhitespace | pkg/utils/string.go:50-52 | True exactly when every character is whitespace, that is, when TrimSpace leaves nothing. |
| StringUtils.NormalizedNameFields | pkg/utils/string.go:28-47 | The result's fields are the title-cased fields of the input, with the same count. |
| StringUtils.NormalizedNameShape | pkg/utils/string.go:28-47 | The result has no whitespace at its ends and is its fields joined by single spaces. |
| StringUtils.NormalizedNameEmpty | pkg/utils/string.go:29-52 | The result is "" exactly when IsEmptyOrWhitespace holds for the input. |
| StringUtils.NormalizedNameTitled | pkg/utils/string.go:37-43 | In every output word the first letter is not lower-case, and no later letter is upper-case. |
| StringUtils.NormalizeNameIdempotent | pkg/utils/string.go:28-47 | Normalising a normalised name changes nothing. |
| Text.TrimSpaceUnique | pkg/utils/string.go:29 | TrimSpace keeps the one trimmed slice that has only whitespace around it. |
| Text.TrimSpaceEmpty | pkg/utils/string.go:51 | TrimSpace keeps nothing exactly when the text is all whitespace. |
| Text.TrimSpaceToLower | pkg/utils/string.go:15-24 | Trimming and lowercasing commute. |
| Text.FieldsTrimSpace | pkg/utils/string.go:29-35 | Trimming before splitting into fields adds or loses no fields. |
| Text.FieldsOfJoin | pkg/utils/string.go:35-46 | Joining fields with single spaces and splitting again gives the same fields back. |

## Left out

- Case mapping is ASCII only. `strings.ToLower`, `unicode.ToUpper` and `unicode.ToLower` are modelled on 'A'–'Z' and 'a'–'z', and every other rune is left unchanged.
- StringUtils.IsValidEmail: is weaker than Go for non-ASCII input. Go's Unicode lowercasing maps a few non-ASCII runes to ASCII letters, for example the Kelvin sign to 'k'. An address containing such a rune can pass in Go and fails in the model.
- StringUtils.NormalizeName: title-cases only ASCII letters. Go's unicode case mapping also changes other scripts.
- Text is a sequence of Unicode code points. Go strings are bytes, and `cleanMarkdown` indexes `content[i]` byte by byte. The model gives the same result on valid UTF-8, because braces, backticks and ASCII whitespace are single bytes that never occur inside a multi-byte sequence. Invalid UTF-8 is not modelled.
- For the e-mail length check, Go's `len` counts bytes and the model counts code points. These agree whenever the pattern can match, because the pattern accepts ASCII only.
- The JSON decoder inside `Parse` (`schema.NewMessageJSONParser`) is a library call and is passed in as a function. The context argument is dropped.
- Of the chat message, only Role, Content, ToolCalls and two of the fields left empty are modelled.
- `GenerateID` reads the clock (`time.Now`) and is not part of this model. `FormatID` receives the timestamp as a parameter.
- The `crypto/rand` read in `GenerateRandomID` is replaced by a byte stream parameter and an optional read failure.
- Errors.AsCustom: does not follow `Unwrap() []error` (multi-error joins) or custom `As` methods. Only a single-inner unwrap chain is modelled.
- `NormalizeName`'s loop body is split into three methods: over the word array, over one word, and over the rune buffer of one word.
- `FormatID`'s loop is the method `WriteBase36`, which `FormatID` calls after computing the mixed value.
- Logging, configuration, server wiring, the model-backed chains, the pointer helpers and `MaxNameLength` lie outside the core and are not modelled.
