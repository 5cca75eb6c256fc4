# AdvancedIniReader in Dafny

A model of the strict INI reader of AdvancedIniReader, with proofs about it. The
reader is the header-only `Config::INI` of `IniReader.h`. It takes a file line by
line and builds a document. A document is an ordered list of sections, and each
section is an ordered list of items. An item has a key, a raw value and an
optional trailing comment. The reader refuses any line that breaks its grammar:
- a comment standing alone on a line;
- a header that is not closed, or whose name is not made of letters and digits;
- an item line with zero or several `=`;
- an item outside every section;
- a key that is not made of letters and digits;
- an unterminated quoted string;
- a malformed number;
- text other than a comment after a value or a header.

It writes a document back in the same layout (`operator<<`, `Save`). The model also
covers the earlier, looser copy of the reader in `IniReader.cpp` and the exception
hierarchy of `IniReaderExceptions.h`.

The modules are:

- `IniText`: the `Utils` helpers (`Strip`, `IsAlpha`, `IsSpace`) and the string
  searches the parser relies on (`find`, `find_first_of`, `count`), and how a
  text splits into pieces at a character.
- `IniExceptions`: the exception classes as a closed set of kinds, the message
  each constructor composes, and a `Failure` type for everything a parse can throw.
- `IniNumber`: the digit-and-dot loop that both `ParseNumber`s run, as a method
  proved equal to a verdict function.
- `IniGrammar`: the line rules of `IniReader.h` as functions:
  - `VerifyComment`, `ParseString` and `NumberRule`;
  - `SectionHeader` and `ParseItemLine`;
  - `Step`, one iteration of `Parse`;
  - `Run`, the lines one after another, stopping at the first exception.
- `IniDocument`: the classes `Item`, `Section` and `INI`, which update their fields
  in place. `INI.Parse` is a loop proved to reach exactly the state `Run` gives.
- `IniRender`: the three `operator<<`s, the lines `std::getline` reads from a
  text, and the item-level round trip. A parsed item line is written back as a
  line that parses to the same key, value and comment.
- `IniProperties`: what the rules do with particular kinds of lines, for example:
  - bracketed names, header tails and signs;
  - comment-only values;
  - the order of the item checks;
  - duplicate keys and repeated headers.
- `IniRoundTrip`: the document round trip. The text written for a document that a
  parse built is cut into lines and parsed again, and the result is the same
  document with the same active section. This holds when no section header
  repeats.
- `IniCppGrammar`, `IniCppDocument`, `IniCppProperties`: `IniReader.cpp`, its rules
  compared with those of `IniReader.h`, and its item round trip. That round trip
  holds exactly for non-empty number tokens, because this copy stores strings
  without their quotes.

File input and output are parameters:
- `Load` takes whether the file opened and the lines `getline` reads;
- `Save` takes whether the file opened and returns the text it writes.

Stream conversions for `Get<T>`, `Set<T>` and `AddItem<T>` are also parameters: a
reading function, or the text `operator<<` produces.

Where the design description of the reader and the code disagree, the model
follows the code:
- Keys and section names pass `std::isalnum` in `IniReader.h`, so `a1` is accepted
  and the empty name is accepted.
- `IniReader.cpp` uses `std::isalpha`, which refuses digits but also accepts the
  empty name.
- `Parse` adds items without `CheckKey`. A key repeated in a file therefore gets
  appended to `m_itemOrder` again, and the item filed first stays.
- A repeated header does not replace its section. `emplace` keeps the existing
  section, the name is appended to `m_sectionOrder` again, and the old section
  becomes active.
- The numeric rule accepts `5.` and `.5`, and a value that is only a comment.
- Blanks after a header's `]` with no comment marker reach `substr(npos)`, which
  throws `std::out_of_range`.
- A missing section is `std::out_of_range` from `unordered_map::at`. A missing
  item is an `ItemException`.

## Model

| member | source | states |
|---|---|---|
| `IniText.Stripped` | AdvancedIniReader/src/IniReader.h:12-15 | the result is a slice of the argument with blank text on both sides and non-blank ends; it is empty exactly when the argument is all blank |
| `IniText.IsSpaceChar` | AdvancedIniReader/src/IniReader.h:21-23 | `std::isspace` in the "C" locale: space, tab, line feed, vertical tab, form feed and carriage return |
| `IniText.IsDigitChar` | AdvancedIniReader/src/IniReader.h:349 | `std::isdigit`: the ten decimal digits |
| `IniText.IsAlphaChar` | AdvancedIniReader/src/IniReader.cpp:17-19 | `std::isalpha` in the "C" locale: the ASCII letters |
| `IniText.IsAlnumChar` | AdvancedIniReader/src/IniReader.h:17-19 | `std::isalnum`: a letter or a digit |
| `IniText.Strip` | AdvancedIniReader/src/IniReader.h:12-15 | the two `erase` passes leave exactly `Stripped` of the argument |
| `IniText.StrippedPadded` | AdvancedIniReader/src/IniReader.h:12-15 | blank padding around a core with non-blank ends is removed, and nothing else |
| `IniText.FindFirstOf` | AdvancedIniReader/src/IniReader.h:357 | `find_first_of`: the first position holding one of the characters, none before it, and `None` (npos) when there is none |
| `IniText.IndexOf` | AdvancedIniReader/src/IniReader.h:288 | `find("=")`: a position holding the character, with no earlier occurrence |
| `IniText.IsAlpha` | AdvancedIniReader/src/IniReader.h:17-19 | `Utils::IsAlpha`: every character is a letter or a digit (`isalnum`), so the empty text passes |
| `IniText.IsSpace` | AdvancedIniReader/src/IniReader.h:21-23 | `Utils::IsSpace`: every character is blank (`isspace`), so the empty text passes |
| `IniText.Count` | AdvancedIniReader/src/IniReader.h:280 | `std::count`: how many times the character occurs in the text |
| `IniText.SplitJoin` | AdvancedIniReader/src/IniReader.h:232 | pieces joined by a character and split at it again come back unchanged, provided no piece holds that character |
| `IniText.Split` | AdvancedIniReader/src/IniReader.h:232 | the pieces of a text between occurrences of a character: at least one piece, none holding the character |
| `IniText.Join` | AdvancedIniReader/src/IniReader.h:384-391 | the `firstLine` loops of the `operator<<`s: the parts in order with the separator between neighbours only |
| `IniExceptions.Messages` | AdvancedIniReader/src/IniReaderExceptions.h:4-48 | `what()` of each class: the base keeps the message, and each derived class prefixes its own name after its base's prefix, so `KeyException` gives `ItemException: KeyException: msg`; a default-constructed exception says `Unknown Error` |
| `IniExceptions.Raise` | AdvancedIniReader/src/IniReaderExceptions.h:4-48 | the constructor of a class taking a message: an exception of that class whose message is its class prefixes followed by the argument |
| `IniExceptions.RaiseDefault` | AdvancedIniReader/src/IniReaderExceptions.h:4-48 | the default constructor of a class: an exception of that class whose message is the initialiser `Unknown Error` |
| `IniExceptions.What` | AdvancedIniReader/src/IniReaderExceptions.h:11 | `what()`: the stored message |
| `IniExceptions.Hierarchy` | AdvancedIniReader/src/IniReaderExceptions.h:4-48 | every class is an `IniReaderException`; the `ItemException`s are exactly `ItemException`, `KeyException` and `ValueException`; the cast and section exceptions have no subclasses; the hierarchy is antisymmetric |
| `IniExceptions.Parent` | AdvancedIniReader/src/IniReaderExceptions.h:4-44 | the direct base class each class declares, none for `IniReaderException` |
| `IniExceptions.IsA` | AdvancedIniReader/src/IniReaderExceptions.h:4-44 | a class is the other or derives from it, so a handler for the other catches it |
| `IniExceptions.ComposedMessage` | AdvancedIniReader/src/IniReaderExceptions.h:16-47 | each message-taking constructor prefixes its own text and forwards to its base's constructor, and the base stores the result |
| `IniExceptions.Prefix` | AdvancedIniReader/src/IniReaderExceptions.h:16-47 | the prefixes the chain of constructors puts before the argument, outermost class first |
| `IniExceptions.ComposedIsPrefixed` | AdvancedIniReader/src/IniReaderExceptions.h:16-47 | the message a constructor stores is the chain of class prefixes followed by the argument |
| `IniExceptions.PrefixFollowsHierarchy` | AdvancedIniReader/src/IniReaderExceptions.h:16-47 | the prefix of a base class is a prefix of the prefix of every class derived from it |
| `IniNumber.ScanNumber` | AdvancedIniReader/src/IniReader.h:341-351 | the `dotCount` loop, with its three checks in the source's order, returns the verdict of the first failing position (a lone dot, a second dot, or a character that is neither a digit nor a dot) |
| `IniNumber.IsNumberToken` | AdvancedIniReader/src/IniReader.h:341-351 | the tokens the loop lets through: digits and dots only, at most one dot, and not `.` alone |
| `IniNumber.TokenVerdictOf` | AdvancedIniReader/src/IniReader.h:341-351 | which check stops the loop: the lone dot first, then the first position holding a second dot or a character other than a digit or a dot |
| `IniNumber.TokenVerdictNumber` | AdvancedIniReader/src/IniReader.h:341-351 | the loop lets a token through exactly when it has only digits and dots, at most one dot, and is not `.` |
| `IniGrammar.VerifyComment` | AdvancedIniReader/src/IniReader.h:356-364 | accepted exactly when blanks come before a first `#` or `;`, and then the result is the text from that marker on; all-blank text is `out_of_range`; other text is `Syntax Error. Unexpected symbols` |
| `IniGrammar.ParseString` | AdvancedIniReader/src/IniReader.h:315-328 | an unterminated-string `ValueException` exactly when the opening quote never recurs; otherwise the value runs through the first closing quote, quotes included; the comment is empty exactly when that quote ends the value, and is otherwise the verified rest |
| `IniGrammar.QuoteCut` | AdvancedIniReader/src/IniReader.h:323-327 | with the closing quote at `i`, the value is the text through `i`, and the comment is the verified text after it; it fails exactly when text follows the quote and `VerifyComent` refuses it, with that failure, which on text ending in a non-blank is always the `UnexpectedSymbols` exception |
| `IniGrammar.NumberRule` | AdvancedIniReader/src/IniReader.h:330-353 | an accepted value is a number token that is a prefix of the text, cut at the first `#`, `;` or space, with the rest verified as its comment; a value with no cut character is accepted exactly when it is a number token; the failures are `Wrong number`, unexpected symbols and `out_of_range` |
| `IniGrammar.ParseNumber` | AdvancedIniReader/src/IniReader.h:330-353 | the cut, the comment check and the loop compute `NumberRule` |
| `IniGrammar.SectionHeader` | AdvancedIniReader/src/IniReader.h:250-270 | an accepted name consists of letters and digits, and the line starts with `[name]`; any text after it is a verified comment; a line with no `]` is `Unterminated section`; a line ending in `]` is accepted exactly when the name between the brackets passes `IsAlpha` |
| `IniGrammar.ClosedHeader` | AdvancedIniReader/src/IniReader.h:254-269 | for a line ending with `]`, the name is everything between the brackets, accepted exactly when `IsAlpha` holds and otherwise a `SectionException` |
| `IniGrammar.CommentedHeader` | AdvancedIniReader/src/IniReader.h:258-269 | the name ends at the first `]`, and the text after it must pass the comment check |
| `IniGrammar.ParseItemLine` | AdvancedIniReader/src/IniReader.h:279-308 | if the count of `=` is not one, the result is an `ItemException`, whether or not a section is active; otherwise, with no active section, the result is `Global variables are not supported`; an accepted key is the stripped text before `=` and passes `IsAlpha`, and the value is what the value rules make of the stripped text after `=` |
| `IniGrammar.ValueRule` | AdvancedIniReader/src/IniReader.h:295-308 | the value dispatch: a value starting with a single or a double quote goes to `ParseString`, any other to `ParseNumber`; an empty value, where `front()` is undefined, is the `EmptyValue` failure |
| `IniGrammar.IsQuote` | AdvancedIniReader/src/IniReader.h:301 | the characters a value must start with to be read as a string: a double or a single quote |
| `IniGrammar.ItemLineFailures` | AdvancedIniReader/src/IniReader.h:291-308 | a key `IsAlpha` refuses gives a `KeyException`; a refused value gives the failure of its value rule |
| `IniGrammar.HeaderStep` | AdvancedIniReader/src/IniReader.h:250-277 | after a header line, the active section is a filed section |
| `IniGrammar.AddItem` | AdvancedIniReader/src/IniReader.h:97-100 | `Section::Add`: the key is appended to the item order every time, and the item is filed under it only when the key is new |
| `IniGrammar.AddSection` | AdvancedIniReader/src/IniReader.h:271-272 | the name is appended to the section order every time, and an empty section is filed under it only when the name is new |
| `IniGrammar.ItemStep` | AdvancedIniReader/src/IniReader.h:279-313 | an item line keeps the active section and the state's consistency |
| `IniGrammar.FileItem` | AdvancedIniReader/src/IniReader.h:310 | `activeSection->Add` changes only the active section, and leaves the section order alone |
| `IniGrammar.Step` | AdvancedIniReader/src/IniReader.h:232-247 | one loop iteration keeps the active section among the filed ones |
| `IniGrammar.Run` | AdvancedIniReader/src/IniReader.h:228-248 | the lines one after another, the first failure ending the parse; every state reached is consistent |
| `IniGrammar.ParseLines` | AdvancedIniReader/src/IniReader.h:228-248 | `Parse` of a file's lines from the empty document with no active section |
| `IniGrammar.VerifyCommentOf` | AdvancedIniReader/src/IniReader.h:356-364 | blanks followed by a comment are accepted, and the comment comes back |
| `IniGrammar.ParseStringBare` | AdvancedIniReader/src/IniReader.h:319-325 | a quoted string with nothing after it is kept whole, quotes included, with no comment |
| `IniGrammar.ParseStringCommented` | AdvancedIniReader/src/IniReader.h:315-328 | a quoted string, blanks and a comment give the string, quotes included, and the comment |
| `IniGrammar.FirstQuote` | AdvancedIniReader/src/IniReader.h:319 | the closing quote is the first recurrence of the opening one |
| `IniGrammar.ParseStringTailFails` | AdvancedIniReader/src/IniReader.h:319-327 | when the first recurrence of the quote is followed by text that is not a comment, the result is exactly `VerifyComent`'s failure on that text |
| `IniGrammar.ParseStringCut` | AdvancedIniReader/src/IniReader.h:327 | with a closing quote before the end and a verified comment after it, the value is the text through the quote |
| `IniGrammar.NumberTokenUncut` | AdvancedIniReader/src/IniReader.h:331-351 | a number token never holds a character the rule cuts at |
| `IniGrammar.NumberRuleOf` | AdvancedIniReader/src/IniReader.h:330-353 | a number token alone is taken as it is, and a number token followed by a verified comment gives the token and that comment |
| `IniGrammar.SectionHeaderOf` | AdvancedIniReader/src/IniReader.h:250-270 | `[name]`, alone or followed by a verified comment, names `name` when `name` passes `IsAlpha` |
| `IniGrammar.HeaderCommented` | AdvancedIniReader/src/IniReader.h:258-270 | `[name]` followed by a verified comment names `name` |
| `IniGrammar.FirstBracket` | AdvancedIniReader/src/IniReader.h:259 | the first `]` of `[name]...` is the one closing the name |
| `IniGrammar.RunAppend` | AdvancedIniReader/src/IniReader.h:232-247 | parsing two blocks of lines is parsing the first, then the second from where it ended; a failure in the first block is final |
| `IniGrammar.RunFailsEarly` | AdvancedIniReader/src/IniReader.h:232-247 | a parse that fails on the first lines fails with the same failure on the whole file |
| `IniGrammar.RunSkipsEmpty` | AdvancedIniReader/src/IniReader.h:236-237 | an empty line anywhere changes nothing |
| `IniGrammar.CommentLineFails` | AdvancedIniReader/src/IniReader.h:239-240 | a line starting with `#` or `;` ends the parse with `std::invalid_argument`, whatever follows it |
| `IniGrammar.StepKeepsDocOk` | AdvancedIniReader/src/IniReader.h:232-247 | one line keeps the document invariants: each order list holds exactly the keys of its map, and each entry is filed under its own name |
| `IniGrammar.HeaderStepKeepsDocOk` | AdvancedIniReader/src/IniReader.h:250-277 | a header line keeps the document invariants |
| `IniGrammar.AddSectionKeepsDocOk` | AdvancedIniReader/src/IniReader.h:271-272 | appending a name and `emplace`-ing an empty section keeps the document invariants |
| `IniGrammar.ItemStepKeepsDocOk` | AdvancedIniReader/src/IniReader.h:279-313 | an item line keeps the document invariants |
| `IniGrammar.FileItemKeepsDocOk` | AdvancedIniReader/src/IniReader.h:97-100 | `Section::Add` keeps the document invariants, repeated keys included |
| `IniGrammar.RunKeepsDocOk` | AdvancedIniReader/src/IniReader.h:228-248 | every document a parse builds keeps the invariants |
| `IniGrammar.RunSectionOrder` | AdvancedIniReader/src/IniReader.h:271-273 | a parse appends one name to `m_sectionOrder` per header line, repeats included, and leaves the last header's section active |
| `IniRender.InOrder` | AdvancedIniReader/src/IniReader.h:192-208 | the range-for over a section visits `m_item.at(key)` for each key of `m_itemOrder`, repeats included |
| `IniRender.ItemTexts` | AdvancedIniReader/src/IniReader.h:206-211 | one line per item, each being that item's `operator<<` |
| `IniRender.SectionTexts` | AdvancedIniReader/src/IniReader.h:384-391 | one text per name of `m_sectionOrder`, each being that section's `operator<<` |
| `IniRender.RenderItem` | AdvancedIniReader/src/IniReader.h:82-86 | `operator<<` of an item: `key=value`, followed by a space and the comment when it has one |
| `IniRender.RenderSection` | AdvancedIniReader/src/IniReader.h:204-213 | `operator<<` of a section: `[name]`, a line feed, then its item texts in `m_itemOrder`, a line feed between two |
| `IniRender.RenderDoc` | AdvancedIniReader/src/IniReader.h:384-391 | `operator<<` of a document: its section texts in `m_sectionOrder`, a blank line between two |
| `IniRender.FileLines` | AdvancedIniReader/src/IniReader.h:232 | the lines `getline` reads hold no line feed, and a text gives no lines exactly when it is empty |
| `IniRender.FileLinesPieces` | AdvancedIniReader/src/IniReader.h:232 | the pieces between line feeds are the lines `getline` reads, plus one empty piece exactly when the text is empty or ends in a line feed |
| `IniRender.FileLinesJoin` | AdvancedIniReader/src/IniReader.h:232 | `getline` over lines joined by line feeds gives the lines back, except a final empty line, which the last line feed ends |
| `IniRender.ParseFileLines` | AdvancedIniReader/src/IniReader.h:232-236 | parsing the lines `getline` reads is parsing the pieces between line feeds, since the extra final empty piece is skipped |
| `IniRender.CommentTail` | AdvancedIniReader/src/IniReader.h:356-364 | a kept comment is not empty, starts with a comment marker and ends where the value ends |
| `IniRender.QuotedCommented` | AdvancedIniReader/src/IniReader.h:82-86 | a quoted value written with a space and its comment needs no stripping, and parses back to the same value and comment |
| `IniRender.QuotedRoundTrip` | AdvancedIniReader/src/IniReader.h:315-328 | a quoted value, written back as `value comment` and stripped, parses to the same value and comment |
| `IniRender.NumberCommentedToken` | AdvancedIniReader/src/IniReader.h:330-353 | a number token written with a space and its comment parses back to the same token and comment |
| `IniRender.NumberCommentOnly` | AdvancedIniReader/src/IniReader.h:82-86 | an empty token with a comment is written with a space that stripping removes, and reads back as an empty token with the same comment |
| `IniRender.NumberRoundTrip` | AdvancedIniReader/src/IniReader.h:330-353 | a numeric value, written back and stripped, parses to the same token and comment |
| `IniRender.ValueRoundTrip` | AdvancedIniReader/src/IniReader.h:298-308 | any value the value rules accept, written back and stripped, is read the same way again |
| `IniRender.RenderedItemParses` | AdvancedIniReader/src/IniReader.h:82-86 | the line written for a key and a value that reads itself back parses to that key and value |
| `IniRender.ItemLineRoundTrip` | AdvancedIniReader/src/IniReader.h:82-86 | an item line once parsed is written as `key=value comment`, which parses to the same key, value and comment |
| `IniDocument.UnquoteQuote` | AdvancedIniReader/src/IniReader.h:59-80 | `Get<std::string>` after `Set<std::string>` gives the string back |
| `IniDocument.Unquoted` | AdvancedIniReader/src/IniReader.h:59-63 | `Get<std::string>`: a value starting with a quote loses its first and last characters, a lone quote giving the empty text; any other value comes back as it is |
| `IniDocument.Quoted` | AdvancedIniReader/src/IniReader.h:78-80 | `Set<std::string>`: the text between double quotes |
| `IniDocument.Item.constructor` | AdvancedIniReader/src/IniReader.h:40-45 | key and value are stored; the comment and its flag are set only for a non-empty comment |
| `IniDocument.Item.Default` | AdvancedIniReader/src/IniReader.h:47 | `Item()` has an empty key, value and comment, and no comment flag |
| `IniDocument.Item.GetString` | AdvancedIniReader/src/IniReader.h:59-64 | a value starting with a quote loses its first and last character; any other value is returned as it is |
| `IniDocument.Item.GetWith` | AdvancedIniReader/src/IniReader.h:49-57 | `Get<T>` succeeds exactly when the extraction does; otherwise the result is an `InvalidCastException` quoting the value |
| `IniDocument.Item.SetString` | AdvancedIniReader/src/IniReader.h:77-80 | the string is stored between double quotes, nothing else changes, and `Get<std::string>` returns it |
| `IniDocument.Item.SetText` | AdvancedIniReader/src/IniReader.h:70-75 | the streamed text becomes the value, and nothing else changes |
| `IniDocument.Section.constructor` | AdvancedIniReader/src/IniReader.h:111 | a named, empty section |
| `IniDocument.Section.Add` | AdvancedIniReader/src/IniReader.h:97-100 | the key is appended to the order every time; `emplace` keeps an item already filed under the key |
| `IniDocument.Section.CheckKey` | AdvancedIniReader/src/IniReader.h:102-108 | passes exactly for a new key of letters and digits; a bad key is a `KeyException`, an existing one an `ItemException` naming it |
| `IniDocument.Section.AddItemString` | AdvancedIniReader/src/IniReader.h:121-125 | a refused key leaves the section unchanged; an accepted key gets the quoted string with no comment, and reading it back gives the string |
| `IniDocument.Section.AddItemText` | AdvancedIniReader/src/IniReader.h:113-119 | a refused key leaves the section unchanged; an accepted key gets the streamed text |
| `IniDocument.Section.At` | AdvancedIniReader/src/IniReader.h:127-134 | the item filed under the key, or an `ItemException` naming the missing key |
| `IniDocument.Section.HasItem` | AdvancedIniReader/src/IniReader.h:136-138 | true exactly for the keys `operator[]` finds |
| `IniDocument.ReadItem` | AdvancedIniReader/src/IniReader.h:279-308 | the checks of `ParseItem`, in the source's order, compute `ParseItemLine` |
| `IniDocument.INI.Model` | AdvancedIniReader/src/IniReader.h:221-222 | the order and the sections form a document that keeps the invariants |
| `IniDocument.INI.Empty` | AdvancedIniReader/src/IniReader.h:216-225 | the members before `Parse`: no section, no active section, not writing |
| `IniDocument.INI.ParseSection` | AdvancedIniReader/src/IniReader.h:250-277 | `false` exactly for a line not starting with `[`; otherwise the new state is `HeaderStep`'s; a failure leaves the state unchanged |
| `IniDocument.INI.Reopen` | AdvancedIniReader/src/IniReader.h:271-273 | a name already filed is appended again, and its old section becomes active |
| `IniDocument.INI.Create` | AdvancedIniReader/src/IniReader.h:271-273 | a new name gets a fresh empty section, which is appended and made active |
| `IniDocument.INI.ParseItem` | AdvancedIniReader/src/IniReader.h:279-313 | the new state is `ItemStep`'s; a failure leaves the state unchanged |
| `IniDocument.INI.AddToActive` | AdvancedIniReader/src/IniReader.h:310 | the active section gets the item as `FileItem` says |
| `IniDocument.INI.ParseLine` | AdvancedIniReader/src/IniReader.h:232-247 | one iteration reaches the state `Step` gives, or fails as `Step` does |
| `IniDocument.INI.Parse` | AdvancedIniReader/src/IniReader.h:228-248 | succeeds exactly when `Run` does, and then reaches the state `Run` gives; otherwise it fails with `Run`'s failure |
| `IniDocument.INI.Load` | AdvancedIniReader/src/IniReader.h:367-374 | a file that cannot be opened is an `IniReaderException`; otherwise the result is the document `ParseLines` gives, or its failure |
| `IniDocument.INI.Get` | AdvancedIniReader/src/IniReader.h:376-382 | the section filed under the name, or `out_of_range` |
| `IniDocument.INI.Save` | AdvancedIniReader/src/IniReader.h:393-403 | a file that cannot be opened is an `IniReaderException`, and leaves `m_writeState` set; otherwise the text written is `operator<<` of the document, and the flag is cleared |
| `IniDocument.INI.Text` | AdvancedIniReader/src/IniReader.h:384-391 | the text `operator<<` writes for the document the object holds |
| `IniProperties.ClosedHeaderVerdict` | AdvancedIniReader/src/IniReader.h:254-269 | `[name]` names `name` exactly when `IsAlpha` accepts it; otherwise it is a `SectionException` |
| `IniProperties.HeaderTailRefused` | AdvancedIniReader/src/IniReader.h:258-265 | a header tail that is not a comment fails with the comment check's failure, whatever the name |
| `IniProperties.BlankAfterHeader` | AdvancedIniReader/src/IniReader.h:357-363 | `[name]` followed by blanks is `out_of_range` |
| `IniProperties.OneDotNumber` | AdvancedIniReader/src/IniReader.h:341-351 | digits with one dot anywhere are a number (`3.14`, `5.`, `.5`); a lone `.` is a wrong number |
| `IniProperties.SignRefused` | AdvancedIniReader/src/IniReader.h:349-350 | a token starting with `-` is a wrong number |
| `IniProperties.CommentOnlyValue` | AdvancedIniReader/src/IniReader.h:330-352 | a value that is only a comment is taken as an empty number with that comment |
| `IniProperties.ItemLineIsItem` | AdvancedIniReader/src/IniReader.h:236-245 | a line the item rule accepts is neither empty, a comment line nor a header |
| `IniProperties.EqualsCountFirst` | AdvancedIniReader/src/IniReader.h:280-283 | a non-header line with zero or several `=` is an `ItemException`, whatever the state |
| `IniProperties.OrphanItem` | AdvancedIniReader/src/IniReader.h:285-286 | a well-formed item line before any header fails with `Global variables are not supported` |
| `IniProperties.DuplicateKeyAppended` | AdvancedIniReader/src/IniReader.h:97-100 | a repeated key read by `Parse` (line 310) is appended to the order again, and the items stay as they were |
| `IniProperties.RepeatedHeader` | AdvancedIniReader/src/IniReader.h:271-273 | a repeated header appends the name again, keeps every section and reactivates the old one |
| `IniRoundTrip.SectionText` | AdvancedIniReader/src/IniReader.h:204-213 | a section's text is its header, then its item lines (or one empty line), joined by line feeds |
| `IniRoundTrip.DocText` | AdvancedIniReader/src/IniReader.h:384-391 | a document's text is its sections' lines, with an empty line between sections, joined by line feeds |
| `IniRoundTrip.RenderedPieces` | AdvancedIniReader/src/IniReader.h:384-391 | the pieces between the line feeds of a readable document's text are exactly its lines, and one empty piece for the empty document |
| `IniRoundTrip.LastDocLine` | AdvancedIniReader/src/IniReader.h:204-213 | a document's last line is empty exactly when its last section has no items (`std::endl` after a bare header) |
| `IniRoundTrip.RenderedLines` | AdvancedIniReader/src/IniReader.h:384-391 | `getline` reads no lines from the empty document's text, and otherwise the document's lines, without the empty line that follows a last section with no items |
| `IniRoundTrip.ItemsRead` | AdvancedIniReader/src/IniReader.h:279-313 | a section's item lines, read in order, refile its items one by one |
| `IniRoundTrip.SectionRead` | AdvancedIniReader/src/IniReader.h:250-313 | a section's lines, read after other sections, file that section whole and leave it active |
| `IniRoundTrip.DocRead` | AdvancedIniReader/src/IniReader.h:228-248 | the lines of distinct, readable sections parse from the empty document into those sections, the last one active |
| `IniRoundTrip.RenderParse` | AdvancedIniReader/src/IniReader.h:384-391 | the text written for a readable document parses back to that document, with its last section active |
| `IniRoundTrip.StepReadable` | AdvancedIniReader/src/IniReader.h:232-247 | a line with no line feed files only sections and items that read back |
| `IniRoundTrip.RunReadable` | AdvancedIniReader/src/IniReader.h:228-248 | a parse of lines with no line feed files only sections and items that read back |
| `IniRoundTrip.ParsedReadable` | AdvancedIniReader/src/IniReader.h:228-248 | a document parsed without a repeated header is readable, and its last section is active |
| `IniRoundTrip.ParseRenderParse` | AdvancedIniReader/src/IniReader.h:367-403 | load, save and load again: a parse of lines with no repeated header is written as text that parses to the same document and active section |
| `IniCppGrammar.VerifyComment` | AdvancedIniReader/src/IniReader.cpp:290-296 | passes exactly for all-blank text or blanks before a comment marker; otherwise `std::invalid_argument` |
| `IniCppGrammar.IsLetters` | AdvancedIniReader/src/IniReader.cpp:17-19 | this copy's `IsAlpha`: every character is a letter (`isalpha`), so the empty text passes |
| `IniCppGrammar.StringRule` | AdvancedIniReader/src/IniReader.cpp:252-268 | malformed exactly when the opening quote never recurs; otherwise the stored value is the text between the quotes, and a tail that is not a comment is refused |
| `IniCppGrammar.TokenLength` | AdvancedIniReader/src/IniReader.cpp:271 | the token ends at the first `#`, `;` or space |
| `IniCppGrammar.NumberRule` | AdvancedIniReader/src/IniReader.cpp:270-288 | accepted exactly when the token before the cut is a number token; then the value is that token, and the text after it is never checked; each refusal carries the message of the check that failed |
| `IniCppGrammar.ParseNumber` | AdvancedIniReader/src/IniReader.cpp:270-288 | the cut, the call of `VerifyComent` on the empty rest and the loop compute `NumberRule` |
| `IniCppGrammar.ParseItemLine` | AdvancedIniReader/src/IniReader.cpp:219-247 | the `=` count comes first, then the active section; an accepted key is letters only; the value is what the value rules make of the stripped text after `=`; every failure is `std::invalid_argument` or the empty value |
| `IniCppGrammar.ValueRule` | AdvancedIniReader/src/IniReader.cpp:240-245 | the value dispatch: a quoted value goes to `ParseString`, any other to `ParseNumber`; an empty value is the `EmptyValue` failure |
| `IniCppGrammar.ReadItem` | AdvancedIniReader/src/IniReader.cpp:219-247 | the checks of `ParseItem`, in the source's order, compute `ParseItemLine` |
| `IniCppGrammar.SectionHeader` | AdvancedIniReader/src/IniReader.cpp:190-209 | an accepted name is letters only and the line starts with `[name]`; any text after it passes the comment check; no `]` means an unterminated section |
| `IniCppGrammar.ClosedHeader` | AdvancedIniReader/src/IniReader.cpp:194-209 | for a line ending with `]`, the name between the brackets is accepted exactly when it is letters only |
| `IniCppGrammar.CommentedHeader` | AdvancedIniReader/src/IniReader.cpp:198-209 | the name ends at the first `]`, and the text after it must pass the comment check |
| `IniCppGrammar.HeaderStep` | AdvancedIniReader/src/IniReader.cpp:190-217 | after a header line, the active section is filed; every failure is `std::invalid_argument` |
| `IniCppGrammar.ItemStep` | AdvancedIniReader/src/IniReader.cpp:219-250 | an item line keeps the active section and the state's consistency |
| `IniCppGrammar.FileItem` | AdvancedIniReader/src/IniReader.cpp:248 | only the active section changes |
| `IniCppGrammar.AddItem` | AdvancedIniReader/src/IniReader.cpp:72-75 | `Section::Add`: the key is appended every time, and the item is filed under it only when the key is new |
| `IniCppGrammar.AddSection` | AdvancedIniReader/src/IniReader.cpp:211-212 | the name is appended every time, and an empty section is filed under it only when the name is new |
| `IniCppGrammar.Step` | AdvancedIniReader/src/IniReader.cpp:175-187 | one loop iteration keeps the active section filed |
| `IniCppGrammar.Run` | AdvancedIniReader/src/IniReader.cpp:171-188 | the lines in order; every failure is `std::invalid_argument` or the empty value |
| `IniCppGrammar.ParseLines` | AdvancedIniReader/src/IniReader.cpp:171-188 | `Parse` of a file's lines from the empty document with no active section |
| `IniCppGrammar.ItemTexts` | AdvancedIniReader/src/IniReader.cpp:149-158 | one `key=value` line per item |
| `IniCppGrammar.SectionTexts` | AdvancedIniReader/src/IniReader.cpp:316-323 | one text per name of `m_sectionOrder` |
| `IniCppGrammar.RenderItem` | AdvancedIniReader/src/IniReader.cpp:57-60 | `operator<<` of an item: `key=value`, with no comment |
| `IniCppGrammar.RenderSection` | AdvancedIniReader/src/IniReader.cpp:149-158 | `operator<<` of a section: `[name]`, a line feed, then its item texts in order, a line feed between two |
| `IniCppGrammar.RenderDoc` | AdvancedIniReader/src/IniReader.cpp:316-323 | `operator<<` of a document: its section texts in order, a blank line between two |
| `IniCppGrammar.StringRuleOf` | AdvancedIniReader/src/IniReader.cpp:252-268 | a quoted string followed by a tail the comment check passes is stored without its quotes |
| `IniCppGrammar.NumberTailDropped` | AdvancedIniReader/src/IniReader.cpp:270-288 | a number token followed by anything starting at a cut character is read as the token, whatever the tail |
| `IniCppGrammar.SectionHeaderOf` | AdvancedIniReader/src/IniReader.cpp:190-209 | `[name]` of letters, alone or with a passing tail, names `name` |
| `IniCppGrammar.RunAppend` | AdvancedIniReader/src/IniReader.cpp:175-187 | parsing two blocks of lines is parsing the first, then the second |
| `IniCppGrammar.RunSkipsComments` | AdvancedIniReader/src/IniReader.cpp:179-180 | empty lines and lines starting with `#` or `;` change nothing wherever they occur |
| `IniCppGrammar.HeaderReopens` | AdvancedIniReader/src/IniReader.cpp:211-213 | a repeated header appends the name again and reactivates the old section |
| `IniCppGrammar.StepKeepsDocOk` | AdvancedIniReader/src/IniReader.cpp:175-187 | one line keeps the document invariants |
| `IniCppGrammar.FileItemKeepsDocOk` | AdvancedIniReader/src/IniReader.cpp:72-75 | `Add` keeps the document invariants |
| `IniCppGrammar.RunKeepsDocOk` | AdvancedIniReader/src/IniReader.cpp:171-188 | every document a parse builds keeps the invariants |
| `IniCppDocument.Item.constructor` | AdvancedIniReader/src/IniReader.cpp:30 | key and value are stored |
| `IniCppDocument.Item.GetString` | AdvancedIniReader/src/IniReader.cpp:43-46 | the stored value, as it is |
| `IniCppDocument.Item.GetWith` | AdvancedIniReader/src/IniReader.cpp:32-41 | `Get<T>` succeeds exactly when the extraction does; otherwise `std::invalid_argument` |
| `IniCppDocument.Item.SetText` | AdvancedIniReader/src/IniReader.cpp:49-54 | the streamed text becomes the value, and `Get<std::string>` returns it |
| `IniCppDocument.Section.constructor` | AdvancedIniReader/src/IniReader.cpp:70 | a named, empty section |
| `IniCppDocument.Section.Add` | AdvancedIniReader/src/IniReader.cpp:72-75 | the key is appended every time; `emplace` keeps an existing item |
| `IniCppDocument.Section.At` | AdvancedIniReader/src/IniReader.cpp:77-83 | the item filed under the key, or `out_of_range` |
| `IniCppDocument.INI.Model` | AdvancedIniReader/src/IniReader.cpp:164-165 | the order and the sections form a document that keeps the invariants |
| `IniCppDocument.INI.Empty` | AdvancedIniReader/src/IniReader.cpp:161-168 | the members before `Parse`: no section, no active section |
| `IniCppDocument.INI.ParseSection` | AdvancedIniReader/src/IniReader.cpp:190-217 | `false` exactly for a line not starting with `[`; otherwise the new state is `HeaderStep`'s; a failure leaves the state unchanged |
| `IniCppDocument.INI.Reopen` | AdvancedIniReader/src/IniReader.cpp:211-213 | a filed name is appended again, and its section becomes active |
| `IniCppDocument.INI.Create` | AdvancedIniReader/src/IniReader.cpp:211-213 | a new name gets a fresh empty section, which is appended and made active |
| `IniCppDocument.INI.ParseItem` | AdvancedIniReader/src/IniReader.cpp:219-250 | the new state is `ItemStep`'s; a failure leaves the state unchanged |
| `IniCppDocument.INI.AddToActive` | AdvancedIniReader/src/IniReader.cpp:248 | the active section gets the item as `FileItem` says |
| `IniCppDocument.INI.ParseLine` | AdvancedIniReader/src/IniReader.cpp:175-187 | one iteration reaches the state `Step` gives, or fails as `Step` does |
| `IniCppDocument.INI.Parse` | AdvancedIniReader/src/IniReader.cpp:171-188 | succeeds exactly when `Run` does, and then reaches the state `Run` gives; otherwise it fails with `Run`'s failure |
| `IniCppDocument.INI.Load` | AdvancedIniReader/src/IniReader.cpp:300-306 | a file that cannot be opened is `std::invalid_argument`; otherwise the result is the document `ParseLines` gives, or its failure |
| `IniCppDocument.INI.Get` | AdvancedIniReader/src/IniReader.cpp:308-314 | the section filed under the name, or `out_of_range` |
| `IniCppDocument.INI.Text` | AdvancedIniReader/src/IniReader.cpp:316-323 | the text `operator<<` writes for the document the object holds |
| `IniCppProperties.CommentLinesSkipped` | AdvancedIniReader/src/IniReader.cpp:179-180 | a comment line is skipped here, and refused by `IniReader.h` |
| `IniCppProperties.TrailingTextAfterNumber` | AdvancedIniReader/src/IniReader.cpp:271-275 | `12 abc` is read as `12` here, while `IniReader.h` refuses the tail |
| `IniCppProperties.PlainItemLine` | AdvancedIniReader/src/IniReader.cpp:219-248 | a `key=value` line with no blanks and one `=` goes to the key check and then to the value rule, in both readers; each reader applies its own key test and its own failures |
| `IniCppProperties.KeyWithDigit` | AdvancedIniReader/src/IniReader.cpp:17-19 | the key `a1` is refused here and taken by `IniReader.h` |
| `IniCppProperties.LetterKeyTaken` | AdvancedIniReader/src/IniReader.cpp:17-19 | the key `alpha` is taken |
| `IniCppProperties.EmptyKeyTaken` | AdvancedIniReader/src/IniReader.cpp:17-19 | the empty key is taken, because `all_of` over no characters is true |
| `IniCppProperties.OneIsNumber` | AdvancedIniReader/src/IniReader.cpp:270-288 | `1` is the number `1` for both readers |
| `IniCppProperties.QuotesAndCommentDropped` | AdvancedIniReader/src/IniReader.cpp:252-268 | `"hi" # greet` is stored as `hi` |
| `IniCppProperties.QuotesAndCommentKept` | AdvancedIniReader/src/IniReader.h:315-328 | `IniReader.h` stores `"hi"` and the comment `# greet` for the same value |
| `IniCppProperties.QuotedKeptWithComment` | AdvancedIniReader/src/IniReader.h:315-328 | `IniReader.h` keeps a double-quoted string with its quotes, together with its comment |
| `IniCppProperties.QuotedCpp` | AdvancedIniReader/src/IniReader.cpp:252-268 | a double-quoted string followed by a comment is stored without quotes or comment |
| `IniCppProperties.NumbersTaken` | AdvancedIniReader/src/IniReader.cpp:277-287 | `3.14`, `5.` and `.5` are taken |
| `IniCppProperties.OneDot` | AdvancedIniReader/src/IniReader.cpp:277-287 | digits with one dot among them are a number, read as they are |
| `IniCppProperties.Uncut` | AdvancedIniReader/src/IniReader.cpp:271-275 | a value with no cut character is the whole token |
| `IniCppProperties.LoneDotRefused` | AdvancedIniReader/src/IniReader.cpp:279-280 | `.` is caught by the first check, with its message |
| `IniCppProperties.ExtraDotRefused` | AdvancedIniReader/src/IniReader.cpp:282-283 | `3.1.4` is caught by the second check, with its message |
| `IniCppProperties.ExtraDotVerdict` | AdvancedIniReader/src/IniReader.cpp:282-283 | the loop stops at the second dot of `3.1.4` |
| `IniCppProperties.NonDigitRefused` | AdvancedIniReader/src/IniReader.cpp:285-286 | `12a` and `-1` are caught by the third check |
| `IniCppProperties.ReadBackOwn` | AdvancedIniReader/src/IniReader.cpp:242-246 | a stored value read again from its own text gives itself back exactly when it is a non-empty number token |
| `IniCppProperties.RenderedLine` | AdvancedIniReader/src/IniReader.cpp:57-60 | the line written for an item with a key of letters parses to that item exactly when its value reads itself back |
| `IniCppProperties.ItemLineRoundTrip` | AdvancedIniReader/src/IniReader.cpp:57-60 | a parsed item, written back as `key=value`, parses to the same item exactly when its value is a non-empty number token |

## Left out

- File input and output: `std::ifstream` and `std::ofstream` are replaced by parameters (whether the file opened, the lines read, the text written). Closing the file is not modelled.
- Stream conversion: `operator>>` for `Get<T>` is a reading function passed in, and `operator<<` for `Set<T>` and `AddItem<T>` is the text passed in. The numeric and other formats of the C++ streams are not modelled.
- Character classes are those of the "C" locale for ASCII: `isspace`, `isdigit`, `isalpha` and `isalnum`. Other locales and bytes above 127 are not modelled.
- `Section::Iterator` and `ConstIterator`: iteration is modelled as the traversal of `m_itemOrder` they perform. `&*m_itemOrder.begin()` on an empty order is undefined behaviour, and the model reads it as an empty traversal.
- `value.front()` on an empty value (`key=`) is undefined behaviour; the parsers return an explicit `EmptyValue` failure. `Item::Get<std::string>` requires a non-empty value for the same reason.
- Items are held by value in their section, as in `std::unordered_map<std::string, Item>`. An `Item&` returned by `Section::operator[]` and then changed in place is not modelled; `Item` is a class of its own.
- The shadowing local `activeSection` declared in `Parse` (IniReader.h:230, IniReader.cpp:173) is never read, and is not modelled. The member `activeSection` is.
- `lineIdx` is counted and never read, and is not modelled.
- The `print` macro, `main` and the type aliases of IniReader.cpp are not modelled. The `print` in `Item::Get<T>` writes to standard output only.
- `IniRoundTrip.ParseRenderParse`: requires that no section header repeats. With a repeated header the section is written twice, each time with all its items, and a second parse files those items twice.
- `IniRoundTrip.ParseRenderParse`: requires that no line holds a line feed. This is always true of the lines `getline` returns.
- `IniDocument.INI.Save`: states `m_writeState` only after the call. The moment between raising the flag and lowering it, during which only the file is touched, is not modelled.
