# Knesset protocol parser — a Dafny model

This project models the core of `protocol_parser.py`, which turns the
paragraphs of a Knesset committee or plenary transcript (a Word document)
into a `Protocol`: the protocol's name, Knesset number, type and number,
and a list of `Sentence`s, each attributed to a speaker.

The model follows the parser's pipeline:

- **File names** (`FileName`): `parse_file_name` reads the Knesset number and
  the protocol type (`ptm` is plenary, `ptv` is committee) from a name such as
  `25_ptv_123456.docx`. This includes `os.path.splitext` and Python's `int`.
- **Protocol number** (`HebrewNumerals`, `ProtocolNumber`): the first
  paragraph that opens with "פרוטוקול מס' <digits>" or
  "הישיבה <number words> של" and yields a number decides it; `-1` means none
  was found. Number words such as "שלוש מאות ארבעים" are converted by the
  source's left-to-right accumulator, in which "מאות" rescales the word
  before it.
- **Speaker lines** (`Docx`, `Formatting`, `SpeakerLine`): a paragraph
  announces a speaker when its cleaned text has the shape `NAME(...):` and the
  paragraph is underlined. The cleaning removes `<<...>>` and straightens quote
  glyphs. A paragraph is underlined through a run with visible text, that run's
  character style, or the paragraph style's base-style chain. The
  `NAME(...):` pattern is modelled as a hand-written scanner with the regular
  expression's backtracking order.
- **Speaker names** (`SpeakerName`): parenthesised remarks are removed. The
  name is then collected by walking the words backwards. The walk stops at
  office words, titles, words starting with "וה", or (after two words) a word
  starting with "ה" that is not a known given name. It never takes more than
  five words.
- **Speeches** (`Speech`, `Transcript`): a speech's paragraphs are joined and
  their dashes normalised. The text is split after `.`, `!` and `?`.
  Sentences with Latin letters, with no character of the Hebrew block, or
  with a run of dashes are rejected. The rest are tokenised. Mixed
  digit/letter tokens are split, and a closing `"` is split off. A sentence
  is stored only when it has at least four tokens.
- **The document walk** (`Parser`): `process_document`'s loop over the
  paragraphs carries the current speaker, whether that speaker is ignored,
  and the speech collected so far. Nothing is kept before the first speaker
  line that mentions the chairman (`יו"ר`). Interjections (`קריאה`, `קריאות`)
  are ignored.

The source's loops over paragraphs, words, tokens, runs and styles are
Dafny `method`s with their loops. Each method is proved equal to a
specification function, and the source's promises are proved as lemmas
about that function. The inner loop over the two protocol-number patterns
(protocol_parser.py:134) is written out as two tries in a row, pattern (a)
and then pattern (b). `Protocol` is a class whose
`sentences` field only `process_speech` extends.

Character classes are hand-written predicates:

- whitespace (`\s`, `str.strip`, `str.split`) is Python's Unicode whitespace;
- digits (`\d`, `str.isdigit`) are the ASCII digits;
- letters (`str.isalpha`) are the ASCII and Hebrew letters;
- `\w` is a letter, a digit or `_`.

## Model

| member | source | states |
|---|---|---|
| FileName.SplitExtRoot | protocol_parser.py:60 | the root `os.path.splitext` keeps is a prefix of the name |
| FileName.TypeOfCode | protocol_parser.py:64-69 | the type is plenary exactly for `ptm` and committee exactly for `ptv`, otherwise unknown |
| FileName.FileNameRoundTrip | protocol_parser.py:49-70 | a name `<n>_<code><_tail>.<ext>` parses back to `n` and the type of `code` |
| FileName.MissingTypeCode | protocol_parser.py:61-63 | a root without `_` has no second part: the parse fails with the error for the missing type code (IndexError) |
| FileName.EmptyNumber | protocol_parser.py:62 | a name starting with `_` has an empty first part, which `int` rejects (ValueError) |
| FileName.ParseDecimal | protocol_parser.py:62 | `int` reads a decimal numeral back to its value |
| FileName.RootOfName | protocol_parser.py:60 | `splitext` of `root.ext` gives `root` |
| TextUtil.SplitOn | protocol_parser.py:61 | `str.split(sep)`: at least one part, no part contains the separator, and joining the parts with it gives the input back |
| TextUtil.StripIdempotent | protocol_parser.py:133 | a stripped text has no whitespace at either end, and stripping twice is stripping once |
| TextUtil.TrimLeftAppend | protocol_parser.py:233 | `lstrip` of a text that continues with a kept character strips only the part before it |
| TextUtil.WordsOfJoin | protocol_parser.py:252 | `' '.join` of words without whitespace splits back into the same words |
| TextUtil.WordsArePlain | protocol_parser.py:252 | `str.split()` yields only non-empty words without whitespace |
| TextUtil.DecimalRoundTrip | protocol_parser.py:146 | the decimal digits of `n` have the value `n` |
| HebrewNumerals.HundredsKnown | protocol_parser.py:84 | "מאות" is in the table, with value 100 |
| HebrewNumerals.WordsToInt | protocol_parser.py:89-113 | the result is None exactly when the total over the longest prefix of number words is 0, and positive otherwise |
| HebrewNumerals.HebrewWordsToInt | protocol_parser.py:99-113 | the accumulator loop, with its break at the first unknown word, computes `WordsToInt` |
| HebrewNumerals.KnownPrefix | protocol_parser.py:101-112 | the loop reads the longest prefix of table words, and the word after it is not in the table |
| HebrewNumerals.AccumulatorBounds | protocol_parser.py:99-109 | the current unit is never negative and never exceeds the total |
| HebrewNumerals.TotalNeverDecreases | protocol_parser.py:101-109 | the total after a prefix of the words is non-negative and at most the total after all of them |
| HebrewNumerals.StopsAtFirstUnknown | protocol_parser.py:110-112 | words after the first unknown word do not change the result |
| HebrewNumerals.HundredsScalesPreviousWord | protocol_parser.py:104-106 | a unit followed by "מאות" adds 100 times the unit to the total before it |
| HebrewNumerals.ThreeHundredForty | protocol_parser.py:99-113 | שלוש מאות ארבעים gives 340 |
| HebrewNumerals.HundredsAfterTens | protocol_parser.py:104-106 | "מאות" rescales only the word right before it: שלוש עשרים מאות gives 2003 |
| HebrewNumerals.NoWordsNoNumber | protocol_parser.py:113 | no leading number word (for example, an empty list) gives None |
| ProtocolNumber.LiteralCapture | protocol_parser.py:129 | the group the digits pattern captures is a non-empty run of digits |
| ProtocolNumber.SessionCapture | protocol_parser.py:130 | the group the session pattern captures is non-empty and made of Hebrew letters and dashes |
| ProtocolNumber.AsDecimal | protocol_parser.py:145-146 | a text matching `^\d+$` is digits, possibly followed by a newline, and its value is the digits' value |
| ProtocolNumber.NumberWords | protocol_parser.py:150-165 | the collected words (prefixes ו/ה dropped) are all table words, and there are at most as many as pieces |
| ProtocolNumber.CollectNumberWords | protocol_parser.py:151-165 | the loop with its `continue` on empty pieces and its break at an unknown word computes `NumberWords` |
| ProtocolNumber.NumberFromMatch | protocol_parser.py:137-169 | the processing of one captured group computes `NumberFromCapture` |
| ProtocolNumber.ProtocolNumberOf | protocol_parser.py:126-171 | the protocol number is -1 or more, and it is -1 exactly when no paragraph yields a number |
| ProtocolNumber.ExtractProtocolNumber | protocol_parser.py:126-171 | the paragraph loop computes `ProtocolNumberOf`, so the result is -1 or a non-negative number |
| ProtocolNumber.FirstYieldDecides | protocol_parser.py:132-170 | when paragraph `i` yields `n` and no earlier paragraph yields a number, the protocol number is `n` |
| ProtocolNumber.LaterParagraphsIgnored | protocol_parser.py:132-170 | once a number is found, paragraphs after it do not change it |
| ProtocolNumber.SessionNumberPositive | protocol_parser.py:149-169 | a number read from words is never 0 |
| ProtocolNumber.DigitsGroupNumber | protocol_parser.py:143-147 | a captured run of digits is returned as exactly its value |
| ProtocolNumber.LiteralDecides | protocol_parser.py:134-147 | when the digits pattern matches and its group yields a number, that is the paragraph's number (the session pattern is not tried) |
| ProtocolNumber.LiteralRoundTrip | protocol_parser.py:129-147 | "פרוטוקול מס' <n>..." yields `n` |
| ProtocolNumber.SessionHeadingNumber | protocol_parser.py:130-169 | "הישיבה G של..." yields the value of the number words of G |
| ProtocolNumber.PrefixedNumberWord | protocol_parser.py:157-162 | a number word with leading ו/ה letters is collected without them |
| ProtocolNumber.NoHeadingNoNumber | protocol_parser.py:133-136 | a paragraph that opens with neither heading yields nothing |
| Formatting.BlankIffStripsToNothing | protocol_parser.py:202 | `run.text.strip()` is empty exactly when the run's text is all whitespace |
| Formatting.IsParagraphUnderlined | protocol_parser.py:195-226 | true exactly when some run with visible text is underlined, directly or by its character style, or some style in the base-style chain underlines (True or SINGLE) |
| SpeakerLine.RemoveDelimited | protocol_parser.py:11 | removing `<<...>>` never lengthens the text, and text without an opening delimiter is unchanged |
| SpeakerLine.CloseAtFirst | protocol_parser.py:11 | the lazy `.*?` ends at the first closing delimiter when no newline comes before it |
| SpeakerLine.PrefixKept | protocol_parser.py:11 | text in which no span opens is kept as it is, before whatever follows |
| SpeakerLine.SpanRemoved | protocol_parser.py:11 | a span that opens, stays on one line, and closes at the first closing delimiter is removed whole, and the scan goes on after it |
| SpeakerLine.TagRemoved | protocol_parser.py:181 | a `<<...>>` tag on one line is removed from the paragraph text, and the text before it is kept |
| SpeakerLine.NormalizeQuotes | protocol_parser.py:184-186 | each character is replaced by its straight quote, the length is kept, and no curly quote is left |
| SpeakerLine.SpeakerPattern | protocol_parser.py:9 | a match has a non-empty name group |
| SpeakerLine.SpeakerPatternChoice | protocol_parser.py:9 | the pattern matches exactly when some split works: leading `<`s, a non-empty one-line name group, then an accepted tail. The name group is that of the split the engine reaches first: the most `<`s taken by `(<+)?`, then the shortest `(.+?)` |
| SpeakerLine.MatchWithLeadChoice | protocol_parser.py:9 | backtracking from `lead` leading `<`s down to none finds a working split exactly when one exists, and picks the one with the most `<`s, then the shortest name group |
| SpeakerLine.FirstNameEndLeast | protocol_parser.py:9 | the lazy `(.+?)` ends no later than any end after which the rest matches |
| SpeakerLine.SpeakerPatternSound | protocol_parser.py:9 | the name group has no newline, follows some of the leading `<`s, and what follows it matches the optional parenthesis, the `:` and the trailing `>`s up to the end |
| SpeakerLine.PlainAnnouncement | protocol_parser.py:9 | "NAME:" with no `:`, `(` or newline in NAME matches with group NAME |
| SpeakerLine.IsSpeakerLine | protocol_parser.py:174-192 | returns the cleaned text always, and a match exactly when the cleaned text has the speaker shape and the paragraph is underlined |
| SpeakerName.TakenFrom | protocol_parser.py:276-292 | the walk takes at most five words and at most all of them, continues past every word it takes, and stops at the start of the list, after five words, or at a word that ends the name |
| SpeakerName.NameSuffixSound | protocol_parser.py:276-295 | the name is a contiguous suffix of the words, in order, with at most five words, none of which stopped the walk |
| SpeakerName.NameWordsClean | protocol_parser.py:279-287 | no name word is a stop word or an excluded title or starts with "וה"; a word before the last two that starts with "ה" is a known given name |
| SpeakerName.CleanSpeakerName | protocol_parser.py:252-301 | split, reverse, collect, reverse, join, `rstrip(':')` and `strip('-')` compute `CleanedName` |
| SpeakerName.CollectNameWords | protocol_parser.py:276-292 | the loop with its four breaks and its five-word cap collects the name suffix, last word first |
| SpeakerName.JoinedNameSplits | protocol_parser.py:295 | the name, joined with spaces, splits back into exactly the name words |
| SpeakerName.RemarkRemoved | protocol_parser.py:235 | a parenthesised remark after the name is removed with its parentheses |
| SpeakerName.RemarkedNameExtracted | protocol_parser.py:229-238 | for a name followed by a parenthesised remark on the same line, the extracted name is the cleaned, stripped name: the remark leaves no trace |
| SpeakerName.StripBeforeSpan | protocol_parser.py:233 | stripping a name followed by a parenthesised span strips only the left of the name |
| SpeakerName.StripAfterTrimLeft | protocol_parser.py:235 | stripping the left first does not change the strip |
| SpeakerName.NoParenOpens | protocol_parser.py:235 | no span opens inside a name without `(` |
| SpeakerName.NoParenCloses | protocol_parser.py:235 | no span closes inside a remark without `)` |
| Speech.FirstBreak | protocol_parser.py:17 | the position found is a match of the sentence-end pattern; none is found only when there is no match |
| Speech.FirstBreakLeftmost | protocol_parser.py:17 | no position before the one found is a match: the match found is the leftmost |
| Speech.BeforeFirstBreak | protocol_parser.py:316 | the first piece, the text before the leftmost match, contains no match |
| Speech.PiecesNoBreak | protocol_parser.py:316 | no piece of the split contains a match of the sentence-end pattern |
| Speech.PiecesEndWithMarks | protocol_parser.py:316 | every piece but the last of the split ends with `.`, `!` or `?` |
| Speech.SentencesStripped | protocol_parser.py:316-317 | every segmented sentence is non-empty and equal to its own strip |
| Speech.SegmentKeepsText | protocol_parser.py:304-318 | segmentation loses no character other than whitespace, and keeps the order |
| Speech.SentencesEndWithMarks | protocol_parser.py:316-317 | every sentence but the last ends with `.`, `!` or `?` |
| Speech.SentencesHaveNoBreak | protocol_parser.py:316-317 | conversely, no sentence contains a `.`, `!` or `?` followed by whitespace and more text: every such place is a boundary |
| Speech.StripNoBreak | protocol_parser.py:317 | stripping a text with no match of the sentence-end pattern leaves a text with no match |
| Speech.BreakInSlice | protocol_parser.py:17 | a match inside a slice of the text is a match in the whole text |
| Speech.StripIsSlice | protocol_parser.py:317 | what `strip` keeps is a contiguous slice of the text |
| Speech.IsValidSentence | protocol_parser.py:321-341 | valid exactly when some character is in U+0590–U+05FF, no character is an ASCII letter, and there is no run of two dashes separated only by whitespace |
| Speech.TokenAt | protocol_parser.py:19 | a match takes a non-empty run of token characters, and there is none exactly at the end or at a character no alternative accepts |
| Speech.TokenAtMatch | protocol_parser.py:19 | at a word character the match is the longest prefix of the shape `\w+["']?\w*`; at another punctuation character it is that character alone |
| Speech.WordTokenLongest | protocol_parser.py:19 | the word match has the shape `\w+["']?\w*`, and no longer prefix has it |
| Speech.DigitRunsSound | protocol_parser.py:21 | the runs of `\d+\|\D+` put together give the text, and each is all digits or digit-free |
| Speech.DigitRunsAlternate | protocol_parser.py:21 | the runs are maximal: each digit run is followed by a digit-free run and each digit-free run by a digit run |
| Speech.SplitMixedParts | protocol_parser.py:370-376 | the parts put together give the token; a mixed token is cut into digit and non-digit runs, and any other token stays whole |
| Speech.PostProcessKeepsToken | protocol_parser.py:360-365 | the post-processed pieces put together give the token; a token longer than one character ending in `"` becomes the rest, then `"` |
| Speech.PostProcessAllKeepsText | protocol_parser.py:358-365 | the tokens after post-processing put together give the tokens before it |
| Speech.TokenizeSentence | protocol_parser.py:344-367 | the post-processing loop computes `Tokenize` |
| Speech.FindTokensKeepText | protocol_parser.py:355 | `findall` drops only characters at which no alternative of the pattern starts: the tokens together hold every word and punctuation character of the sentence, in order |
| Speech.ConsKeepsText | protocol_parser.py:355 | a match taken from the front of the text, followed by tokens that keep the rest, keeps the text |
| Speech.FindTokensSkip | protocol_parser.py:355 | a character at which no alternative starts is skipped |
| Speech.FindTokensPunctuation | protocol_parser.py:19 | a punctuation character that is not a word character is a token by itself |
| Speech.PostProcessAllPunctuation | protocol_parser.py:358-365 | single punctuation characters pass post-processing unchanged |
| Speech.PostProcessPunctuation | protocol_parser.py:360-365 | a single punctuation character is neither cut at a quote nor split as a mixed token |
| Speech.FlatMapFrom | protocol_parser.py:358-365 | when each token is cut into non-empty tokens of the same characters, so is the list |
| Speech.FlatMapKeepsText | protocol_parser.py:358-365 | when each token's pieces give it back, the list's pieces give the list's text back |
| Speech.FlatMapKeeps | protocol_parser.py:358-365 | a list whose every token is kept whole is kept as it is |
| Speech.TokensFrom | protocol_parser.py:355-367 | every token is non-empty and made of characters the pattern can take from the sentence, and the tokens together keep every word and punctuation character of the sentence, in order |
| Speech.TokensArePlain | protocol_parser.py:444 | tokens have no whitespace, so the sentence text splits back into exactly its tokens |
| Transcript.Protocol.constructor | protocol_parser.py:41-46 | the fields are the arguments, and the sentence list starts empty |
| Transcript.ProcessSpeech | protocol_parser.py:426-446 | appends exactly the sentences of the speech, in order, and leaves earlier sentences unchanged |
| Transcript.SentenceOfWellFormed | protocol_parser.py:440-446 | a stored sentence has the speaker's name, at least four space-separated tokens, and no Latin letter |
| Transcript.NoLatinText | protocol_parser.py:336-337 | the joined tokens of a valid sentence have no ASCII letter |
| Transcript.SpeechSentencesWellFormed | protocol_parser.py:426-446 | every sentence a speech adds is well formed for its speaker |
| Transcript.NoValidSentenceNoOutput | protocol_parser.py:441 | a speech with no valid sentence adds nothing |
| Transcript.SentenceWithoutHebrewLetter | protocol_parser.py:440-446 | the sentence "U+05C3 - , ; :" is valid and is stored as "- , ; :", which has no Hebrew letter |
| Transcript.SkippedSentence | protocol_parser.py:440-446 | a valid sentence of a skipped character and four spaced punctuation characters is stored as those four, joined by spaces |
| Transcript.SofPasuqValid | protocol_parser.py:321-341 | the sentence "U+05C3 - , ; :" passes `is_valid_sentence` |
| Transcript.SpacedPunctuation | protocol_parser.py:355 | four punctuation characters separated by spaces give four tokens |
| Transcript.PunctuationThenSpace | protocol_parser.py:19 | a punctuation character and a space give one token |
| Transcript.SkippedThenSpace | protocol_parser.py:19 | a character no alternative accepts, and a space, give no token |
| Transcript.SpacedJoin | protocol_parser.py:444 | four one-character tokens joined by spaces |
| Parser.ProcessDocument | protocol_parser.py:379-423 | the protocol is new, has the given name, Knesset number and type, the number `ProtocolNumberOf` gives, and exactly the sentences of the document's speeches |
| Parser.WalkParagraphs | protocol_parser.py:395-422 | the paragraph loop and the final hand-over append exactly the sentences of the document's speeches |
| Parser.StepKeepsInv | protocol_parser.py:400-419 | each iteration keeps the loop invariant: an ignored speaker has no speech, before any speaker everything is ignored, a speaker is ignored exactly when it is an interjection, and every speech handed on is good |
| Parser.RunKeepsInv | protocol_parser.py:400-419 | the invariant holds after any number of paragraphs |
| Parser.TurnsGood | protocol_parser.py:400-422 | every speech handed to `process_speech` has a non-empty speaker name that is not an interjection, and at least one paragraph, none empty |
| Parser.DocumentSentencesAttributed | protocol_parser.py:403-446 | every stored sentence has a speaker whose name is non-empty and is neither קריאה nor קריאות, at least four tokens, and no Latin letter |
| Parser.BeforeChairNothing | protocol_parser.py:395-403 | until the first speaker line that mentions `יו"ר`, the loop stays in its initial state |
| Parser.PrefaceIgnored | protocol_parser.py:395-419 | paragraphs before the first chairman's speaker line do not change the stored sentences |
| Parser.NoChairNoSentences | protocol_parser.py:395-422 | a document without a chairman's speaker line stores no sentence |
| Parser.RunFromAppend | protocol_parser.py:400-419 | walking two stretches of paragraphs is walking the second from where the first left off |
| Parser.RunOnlyAppends | protocol_parser.py:400-419 | the speeches handed on only grow: earlier ones are kept, in order |
| Parser.InterjectionIgnored | protocol_parser.py:410-419 | after an interjection is announced, a paragraph that is not a speaker line changes nothing |

## Left out

- Loading the document with python-docx (`Document(file_path)`, protocol_parser.py:392) is out of scope. `Parser.ProcessDocument` takes the loaded paragraphs. A paragraph is a value with its text, its runs, and its style chain.
- The paragraph style's base-style chain is a finite sequence. A cyclic chain, on which the source's `while style` loop would not end, cannot be expressed.
- `process_all_documents` and `main` (protocol_parser.py:451-514) are left out: directory listing, JSON Lines output and argument parsing are I/O.
- The `try`/`except` and `print` in `process_speech` (protocol_parser.py:435, 447-448) are left out. None of the modelled steps raises, so the model's functions are total.
- Unicode character classes are narrowed. `\d` and `str.isdigit` cover the ASCII digits only. `str.isalpha` covers the ASCII and Hebrew letters only. `\w` is those, plus `_`. Whitespace follows Python's full list.
- The protocol type is a datatype (`Plenary`, `Committee`, `Unknown`), not the strings 'plenary', 'committee' and 'unknown'.
- `os.path.splitext` treats only `/` as a path separator (POSIX).
- The `\d+` alternative of `tokenize_pattern` (protocol_parser.py:19) is not modelled separately. A digit is a word character, so the first alternative always matches there first.
- The paragraph loop of `process_document` is the separate method `Parser.WalkParagraphs`, called by `Parser.ProcessDocument`, so that each proof stays small. Together they do what the source's single function does.

Behaviour of the code worth knowing, which the model keeps:

- A speaker whose cleaned name is empty becomes the current speaker, but the speech is never handed on, because the source tests the name's truthiness (protocol_parser.py:405, 421). The model does the same.
- The protocol number comes from the first paragraph that yields a number. The code moves on past a paragraph whose "הישיבה ... של" words convert to nothing (protocol_parser.py:166-170). The model follows the code, not a reading in which the first match decides.
- Every character of U+0590–U+05FF (vowel points, maqaf, punctuation) counts as Hebrew for `is_valid_sentence`, as in the code.
- A stored sentence need not contain a Hebrew letter. A character of the Hebrew block that is neither `\w` nor in the punctuation class, such as the sof pasuq U+05C3, makes the sentence valid but is dropped by the tokeniser. So "U+05C3 - , ; :" is stored as "- , ; :" (`Transcript.SentenceWithoutHebrewLetter`).
- The name walk treats a word starting with "ה" as a title only once two words are taken (protocol_parser.py:286). So "יוסי כהן שר הביטחון" keeps all four words: "הביטחון" is not a stop word, and it is the first word taken.
