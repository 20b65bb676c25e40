# Document OCR: verified model of the text cleaner, field extractor and document store

Document_OCR is a desktop tool that scans identity documents. It turns an
image into text with an OCR engine, then cleans that text line by line. It
extracts fields from the text: document type, number, name, and the dates
of birth, expiry and issue. It keeps the scanned documents in an SQLite
database with an audit log.

This project models the parts of the program that compute or keep state, and proves what they promise.

- `chars.dfy` (`Chars`): Python's character tests (`isspace`, `isalnum`,
  `isupper`, …) and `str.upper`/`str.lower` over ASCII.
- `text.dfy` (`Text`): the string built-ins the program relies on.
  - `strip`, and `' '.join(s.split())`.
  - `split('\n')` and `'\n'.join`, with their round trip.
  - Substring search (`in`).
- `text_cleaner.dfy` (`TextCleaner`): `post_process_text` and
  `fix_common_errors`. Both are methods with loops, proved against the
  specification functions `Clean` and `Fixed`.
- `field_extractor.dfy` (`FieldExtractor`): `parse_document_info`.
  - Each regular expression is an explicit scanner that behaves like
    Python's backtracking `re.search`. It tries every start position from
    the left and the label alternatives in source order. It takes the
    separators `[.:# ]*` greedily and gives them back one at a time. The
    value group is greedy.
  - `.title()` is modelled as well.
  - The document-type loop with its early `break` is the method
    `ParseDocumentInfo`.
- `sql_like.dfy` (`SqlLike`): SQLite's `LIKE` with `%`, `_` and ASCII case
  folding. For a term without wildcards, `'%' || t || '%'` is a substring
  test that ignores case.
- `document_store.dfy` (`DocumentStore`): the `documents` and `audit_log`
  tables.
  - They are the fields of the class `Store`: a map from id to row, and an
    append-only sequence of entries.
  - Methods cover adding, editing, deleting, logging, listing and
    searching. Every method keeps the invariant `Valid`:
    - ids are positive;
    - `date_added <= last_modified`;
    - audit entries are numbered 1, 2, … and written by `SYSTEM` at
      non-decreasing times.

### Behaviour the model keeps from the code

- **Searching.** The search uses SQLite `LIKE`, which ignores ASCII case.
  The `"Number"`/`"Name"` tag uses Python's case-sensitive `in`. So the
  number `AB1234` is found by the term `ab12` but tagged `"Name"`
  (`TagIsCaseSensitive`).
- **Adding.**
  - A new document is stored as it is. Its text is not checked, and an
    empty text is accepted.
  - The new id is one more than the largest stored id. An id freed by
    deleting the largest document is given out again.
- **Editing.**
  - The edit dialog checks that the document exists. `save_changes` does
    not: its `UPDATE` changes nothing for a missing row, and the EDIT entry
    is written either way.
- **Deleting.** Deletion does not check that the ids exist. It writes a
  DELETE entry for every selected id.
- **The audit log.**
  - A document row is committed before its audit entry is written.
  - A failed audit write is swallowed. This is modelled by the flag
    `auditOk`/`auditOks`.
- **What the model adds.** The program never calls `parse_document_info`.
  Documents carry the extracted fields only because the search reads them
  (see Findings). The caller of `Store.Create` passes those fields in.

### Definitions the lemmas speak about

These functions state what a piece of the program computes. They carry no
contract of their own; the lemmas in the table below are about them.

- `Text.JoinSpaces`: the `' '.join(...)` of Pytesseract.py:186.
- `Text.SplitInto`: `s` cut at its whitespace runs into the words `ws`, in
  order, each word a maximal run without whitespace (the meaning of `split()`).
- `Text.NonSpace`: the characters of a string that are not whitespace, in order.
- `Text.Concat`: a list of words written one after the other.
- `Text.JoinLines`: the `'\n'.join(cleaned_lines)` of Pytesseract.py:196.
- `Text.Contains`: Python's substring test `in`, at document_manager.py:465 and :619.
- `TextCleaner.CleanLine`: strip, collapse and fix one line, Pytesseract.py:181-189.
- `TextCleaner.Keep`: the filter `len(line) > 2 and any(c.isalnum() ...)`, Pytesseract.py:192.
- `TextCleaner.Clean`: the whole of `post_process_text`, Pytesseract.py:172-202.
- `DocumentStore.Appended`: the audit log after `log_action`, document_manager.py:535-554.
- `DocumentStore.Matches`: `doc_number LIKE ? OR full_name LIKE ?`, document_manager.py:612-616.
- `DocumentStore.Scan`: the rows the search query returns, in order, with their tags, document_manager.py:610-623.

## Model

| member | source | states |
|---|---|---|
| Chars.ToUpperChar | document_manager.py:460 | lower-case ASCII letters become upper-case, every other character is unchanged |
| Chars.ToLowerChar | document_manager.py:477 | upper-case ASCII letters become lower-case, every other character is unchanged |
| Chars.ToUpper | document_manager.py:460 | `text.upper()` keeps the length and upper-cases each character in place |
| Text.TrimLeft | Pytesseract.py:181 | the result is a suffix of the input with no leading whitespace, and only whitespace was removed |
| Text.TrimRight | Pytesseract.py:181 | the result is a prefix of the input with no trailing whitespace, and only whitespace was removed |
| Text.Strip | Pytesseract.py:181 | `strip()` leaves no whitespace at either end, empties an all-whitespace string, and leaves an already stripped string unchanged |
| Text.StripSlice | Pytesseract.py:181 | `strip()` returns a slice of the input with only whitespace before it and only whitespace after it, so exactly the leading and trailing whitespace is removed |
| Text.WordLen | Pytesseract.py:186 | the first word of a string is its longest prefix without whitespace |
| Text.Words | Pytesseract.py:186 | `split()` yields only non-empty words without whitespace (`Text.WordsSplit` says which words) |
| Text.JoinSpacesNormalized | Pytesseract.py:186 | joining non-empty words with single spaces gives a string whose only whitespace is single inner spaces |
| Text.CollapseNormalized | Pytesseract.py:186 | `' '.join(s.split())` has only single inner spaces as whitespace |
| Text.WordLenOfWord | Pytesseract.py:186 | a word followed by whitespace or the end is exactly the first word |
| Text.WordsAfterSpace | Pytesseract.py:186 | splitting `w + " " + t` gives `w` followed by the words of `t` |
| Text.NormalizedAfterSpace | Pytesseract.py:186 | in a collapsed string a space is followed by a non-space, and the rest is still collapsed |
| Text.CollapseKeepsNormalized | Pytesseract.py:186 | collapsing an already collapsed string changes nothing |
| Text.WordsSplit | Pytesseract.py:186 | the words of `split()` are the maximal runs of the input without whitespace, in order, with only whitespace between and around them |
| Text.NonSpaceAppend | Pytesseract.py:186 | dropping whitespace from `a + b` is dropping it from `a` and from `b` |
| Text.NonSpaceOfWord | Pytesseract.py:186 | dropping whitespace from a word changes nothing |
| Text.NonSpaceOfBlank | Pytesseract.py:186 | dropping whitespace from an all-whitespace string leaves nothing |
| Text.NonSpaceStep | Pytesseract.py:186 | whitespace, a word, then a rest keep only the word and the rest's non-whitespace |
| Text.SplitIntoNonSpace | Pytesseract.py:186 | cutting a string at its whitespace keeps all of its other characters, in order |
| Text.NonSpaceJoinStep | Pytesseract.py:186 | in a word, a space and a rest, only the space is dropped |
| Text.JoinSpacesNonSpace | Pytesseract.py:186 | joining words with single spaces adds no character other than those spaces |
| Text.CollapseKeepsContent | Pytesseract.py:186 | `' '.join(s.split())` keeps every non-whitespace character of `s`, in order, and adds none |
| Text.SplitLines | Pytesseract.py:175 | `split('\n')` yields at least one piece, with no newline in any piece |
| Text.SplitLinesSingle | Pytesseract.py:175 | a string without newlines splits into itself |
| Text.SplitLinesJoined | Pytesseract.py:175 | splitting `a + "\n" + b` gives `a` followed by the pieces of `b` |
| Text.SplitJoinLines | Pytesseract.py:175-196 | splitting the `'\n'`-join of newline-free lines gives those lines back |
| TextCleaner.FixChar | Pytesseract.py:207-216 | after the table no vertical bar, `[`, `]`, `{` or `}` remains, and whitespace and spaces are kept |
| TextCleaner.Fixed | Pytesseract.py:215-216 | applying the table keeps the length |
| TextCleaner.Replace | Pytesseract.py:216 | `str.replace` of one character keeps the length |
| TextCleaner.FixCommonErrors | Pytesseract.py:204-218 | the loop over the five replacements gives, at every position, the fixed character of the input |
| TextCleaner.FixedIdempotent | Pytesseract.py:204-218 | fixing twice is fixing once |
| TextCleaner.FixedKeepsClean | Pytesseract.py:207-216 | text without misread glyphs is unchanged by the fixes |
| TextCleaner.HasAlnumIff | Pytesseract.py:192 | `any(c.isalnum() for c in line)` holds exactly when some character is a letter or digit |
| TextCleaner.FixedShape | Pytesseract.py:189 | fixing keeps a collapsed line collapsed and removes every misread glyph |
| TextCleaner.CleanLineShape | Pytesseract.py:181-189 | a cleaned line is collapsed and has no misread glyph |
| TextCleaner.CleanLineFixpoint | Pytesseract.py:181-189 | cleaning a collapsed, glyph-free line changes nothing |
| TextCleaner.Cleaned | Pytesseract.py:179-189 | cleaning every line keeps the number of lines |
| TextCleaner.CleanedShape | Pytesseract.py:179-189 | every cleaned line is collapsed and glyph-free |
| TextCleaner.Kept | Pytesseract.py:192-193 | the filter keeps at most as many lines as it is given |
| TextCleaner.KeptMembers | Pytesseract.py:192-193 | every kept line is an input line longer than 2 with a letter or digit |
| TextCleaner.CleanedLinesShape | Pytesseract.py:179-193 | the surviving lines are no more than the input lines, each passes the filter, and each is collapsed and glyph-free |
| TextCleaner.KeptStep | Pytesseract.py:192-193 | filtering one more line appends it exactly when it passes the filter |
| TextCleaner.PostProcessText | Pytesseract.py:172-202 | the loop over the lines computes `Clean(text)` |
| TextCleaner.NormalizedHasNoNewline | Pytesseract.py:186 | a collapsed line contains no newline |
| TextCleaner.JoinLinesNonEmpty | Pytesseract.py:196 | joining lines whose first line is non-empty gives a non-empty text |
| TextCleaner.CleanedTextLines | Pytesseract.py:175-196 | the lines of the output are exactly the surviving cleaned lines |
| TextCleaner.KeptLineShape | Pytesseract.py:181-193 | a surviving line is longer than 2 and has a letter or digit, has no whitespace at either end, has only spaces as whitespace, has no double space and has no misread glyph |
| TextCleaner.OutputLineShape | Pytesseract.py:175-196 | every line of the output has that shape |
| TextCleaner.LineCountBound | Pytesseract.py:175-196 | the output has no more lines than the input |
| TextCleaner.JoinLinesNoMisread | Pytesseract.py:196 | joining glyph-free lines gives glyph-free text |
| TextCleaner.CleanHasNoMisread | Pytesseract.py:172-218 | the output never contains a vertical bar, `[`, `]`, `{` or `}` |
| TextCleaner.KeptIndices | Pytesseract.py:179-193 | the positions of the surviving lines increase, each names its source line, and a line survives exactly when its position is listed |
| TextCleaner.KeptLast | Pytesseract.py:192-193 | a last line that passes the filter adds its position |
| TextCleaner.DroppedLast | Pytesseract.py:192-193 | a last line that fails the filter adds nothing |
| TextCleaner.OrderPreserved | Pytesseract.py:179-196 | the k-th surviving line is the cleaning of input line `idx[k]`, with `idx` increasing, and a line is used exactly when its cleaning passes the filter |
| TextCleaner.KeptAll | Pytesseract.py:192-193 | lines that all pass the filter are all kept |
| TextCleaner.CleanedLinesFixpoint | Pytesseract.py:179-193 | lines that are already clean and pass the filter survive unchanged |
| TextCleaner.CleanIdempotent | Pytesseract.py:172-218 | cleaning the cleaned text changes nothing |
| TextCleaner.NothingKept | Pytesseract.py:182-183 | empty lines are all dropped |
| TextCleaner.BlankCleansToEmpty | Pytesseract.py:182-196 | empty or all-whitespace input gives the empty string |
| FieldExtractor.Run | document_manager.py:470 | a greedy run of a character class is the longest run of that class from its start |
| FieldExtractor.MatchYear | document_manager.py:480 | `\d{2,4}` closing the pattern takes every digit there is, up to four: it ends exactly where `YearAt` says, and fails exactly when two digits are not there |
| FieldExtractor.DateWith | document_manager.py:480 | with given day and month widths the date is found exactly where `DateAt` says, with the greedy year, and it has the date shape |
| FieldExtractor.DigitsThenSepOnce | document_manager.py:480 | one digit then `[-/]` and two digits then `[-/]` never both hold at one position |
| FieldExtractor.MatchDate | document_manager.py:480 | `\d{1,2}[-/]\d{1,2}[-/]\d{2,4}` is found at a position exactly when it matches there (`GreedyDate`, year greedy), and then ends where that match ends |
| FieldExtractor.MatchValue | document_manager.py:470-488 | the value group is found at a position exactly when the value pattern (`ValueAt`) starts there, and ends where it ends: a maximal run of 6 or more `[A-Z0-9-]`, a maximal non-empty `[A-Z ]` run, or a date with the greedy year |
| FieldExtractor.MatchAfterLabel | document_manager.py:470 | when separators are given back one at a time, the group starts inside the separator run and lies within the text |
| FieldExtractor.AfterSeparators | document_manager.py:470 | the group found after the separators lies within the text |
| FieldExtractor.AfterLabel | document_manager.py:470 | a match at a label puts its group after the label |
| FieldExtractor.MatchLabels | document_manager.py:470 | the label alternatives tried in order match at or after the position |
| FieldExtractor.SearchFrom | document_manager.py:470 | `re.search` finds a group at or after the start |
| FieldExtractor.SearchLeftmost | document_manager.py:470 | when the search fails, the pattern matches nowhere |
| FieldExtractor.SearchFindsLeftmost | document_manager.py:470 | the search returns the match at the leftmost position where the pattern matches |
| FieldExtractor.NoLabelNoCapture | document_manager.py:470-472 | without any label in the text the field stays `''` |
| FieldExtractor.NameBacktracksToSpace | document_manager.py:475 | when only separators follow `NAME`, the captured name is a single space |
| FieldExtractor.NameGroupShape | document_manager.py:475 | the name group starts with a capital right after the separators, or it is one space |
| FieldExtractor.MatchLabelsFrom | document_manager.py:470 | a match at a position is the group of the first label alternative that matches there, and no alternative matches when it fails |
| FieldExtractor.AfterLabelSeparated | document_manager.py:470 | a match after a label sees the label, then only separators up to the group |
| FieldExtractor.NameGroup | document_manager.py:475 | after the separators, a name group is a maximal `[A-Z ]` run starting with a capital, or a single space |
| FieldExtractor.AfterLabelShape | document_manager.py:470-488 | only separators precede the group, and the group fits its value class (a date with the greedy year) |
| FieldExtractor.SearchFromLabel | document_manager.py:470 | a found group comes from some label at some position |
| FieldExtractor.CaptureGroup | document_manager.py:470-472 | a non-empty field is the group after one of its labels |
| FieldExtractor.MatchValueStarts | document_manager.py:470-488 | the value scanner succeeds at a position exactly when a value of the pattern starts there |
| FieldExtractor.ScanFindsValue | document_manager.py:470 | the group the backtracking scan returns is a match of the value pattern |
| FieldExtractor.ScanReaches | document_manager.py:470 | a value starting anywhere the separators reach is found by the scan, or a later one is |
| FieldExtractor.MatchAfterLabelSpec | document_manager.py:470 | giving separators back, the scan stops at the latest position where a value starts, and fails only when none starts within reach |
| FieldExtractor.AfterSeparatorsSpec | document_manager.py:470 | the group after the separators is exactly the one `GroupAt` describes (only separators before it, the value, no later start within reach), and there is none exactly when no value starts within reach |
| FieldExtractor.AfterLabelSpec | document_manager.py:470 | trying one label at a position finds exactly the `GroupAt` group after that label |
| FieldExtractor.MatchLabelsSpec | document_manager.py:470 | at one position the alternatives tried in order fail exactly when none matches, and otherwise give the group of the first that matches |
| FieldExtractor.LabelAlternative | document_manager.py:470 | one label alternative finds a group exactly when `MatchAt` holds for it |
| FieldExtractor.FirstMatchUnique | document_manager.py:470 | the leftmost match through the first alternative is unique |
| FieldExtractor.SearchNoneSpec | document_manager.py:470-472 | when the search finds nothing, the pattern matches at no position |
| FieldExtractor.SearchSomeSpec | document_manager.py:470-472 | a group the search finds is the one of the first match, and every first match has it |
| FieldExtractor.CaptureSpec | document_manager.py:470-472 | `group(1)` is `''` exactly when the pattern matches nowhere, and otherwise the group of the leftmost match through the first alternative that matches there |
| FieldExtractor.LabelMatchesReaches | document_manager.py:470 | the pattern matches at a label exactly when a value starts somewhere its separators reach |
| FieldExtractor.CaptureLeftmost | document_manager.py:470-472 | the field is non-empty exactly when a value follows a label past separators somewhere, and then it is the group after the leftmost such label occurrence, the earlier alternative winning at one position |
| FieldExtractor.ValueEndUnique | document_manager.py:470-488 | where a value starts determines where it ends |
| FieldExtractor.ValueStartsNoSeparator | document_manager.py:470-488 | a number or a date never starts with a separator |
| FieldExtractor.SimpleGroupAt | document_manager.py:470-488 | for numbers and dates the group is just the value right after the separators |
| FieldExtractor.NameStarts | document_manager.py:475 | a name starts exactly at a capital or a space |
| FieldExtractor.SliceOccurs | document_manager.py:471 | a captured slice occurs in the text where it was taken |
| FieldExtractor.SliceInClass | document_manager.py:471 | a slice of class characters consists of class characters |
| FieldExtractor.NumberSlice | document_manager.py:470-472 | a maximal run of 6 or more number characters after a label and separators is a found number |
| FieldExtractor.DateSlice | document_manager.py:480-482 | a date with the greedy year after a label and separators is a found date |
| FieldExtractor.NameSlice | document_manager.py:475-477 | a maximal capital-led `[A-Z ]` run, or a single space, after `NAME` and separators is a found name |
| FieldExtractor.NameAfter | document_manager.py:475-477 | the group after `NAME` is a found name |
| FieldExtractor.NumberCapture | document_manager.py:470-472 | `doc_number` is non-empty exactly when a label is followed, past separators only, by 6 or more `[A-Z0-9-]`; it is then the whole run after the leftmost such label, and a found number |
| FieldExtractor.DateCapture | document_manager.py:480-490 | a date field is non-empty exactly when a label is followed, past separators only, by a date; it is then that date after the leftmost such label, year greedy, and a found date |
| FieldExtractor.LeadingLabelCapture | document_manager.py:470-490 | for numbers and dates, a text that starts with the first label, separators and a value gives exactly that value |
| FieldExtractor.BirthDateKeepsYear | document_manager.py:480-482 | `DOB 01-02-1990` gives the date of birth `01-02-1990`, not `01-02-19` |
| FieldExtractor.NameCapture | document_manager.py:475-477 | `full_name` is non-empty exactly when a capital or a space follows `NAME` past separators; it is then the group after the leftmost such label, a maximal capital-led `[A-Z ]` run or a single space |
| FieldExtractor.Title | document_manager.py:477 | `.title()` keeps the length and every non-letter |
| FieldExtractor.CaseChange | document_manager.py:477 | upper- and lower-casing a letter give letters of the right case, with the same upper-case form |
| FieldExtractor.TitleCase | document_manager.py:477 | after `.title()` a letter is a capital exactly when it starts a word, and upper-casing undoes the title-casing |
| FieldExtractor.TitleAt | document_manager.py:477 | at each position `.title()` keeps letters as letters, capitalises exactly the first letter of each word, and keeps the upper-case form |
| FieldExtractor.TitleIdempotent | document_manager.py:477 | applying `.title()` twice is applying it once |
| FieldExtractor.FirstContained | document_manager.py:463-467 | the document type is the first of the types that occurs in the text, or `''` when none does |
| FieldExtractor.ParseDocumentInfo | document_manager.py:447-492 | the loop with `break` picks the first of `PASSPORT`, `DRIVER LICENSE`, `ID CARD` that occurs in the upper-cased text, else `''`, and the result is `DocumentInfoOf(text)` |
| FieldExtractor.EmptyText | document_manager.py:449-457 | the empty text gives all fields `''` |
| FieldExtractor.DateChars | document_manager.py:480 | a date-shaped string has only digits and `-`/`/` |
| FieldExtractor.UpperKeepsDate | document_manager.py:460 | a run of digits and `-`/`/` in the upper-cased text occurs at the same place in the original |
| FieldExtractor.DateField | document_manager.py:480-490 | a found date has the date shape and the greedy year, sits after its label, and is copied verbatim from the original text |
| FieldExtractor.DocumentFields | document_manager.py:447-492 | each of the five fields is non-empty exactly when one of its labels is followed by a value in the upper-cased text, and then it is found there: number and dates as above, the name title-cased and upper-casing to a found name |
| FieldExtractor.NameIsUpper | document_manager.py:475 | a `[A-Z ]` string is its own upper-case form |
| SqlLike.LikeAnything | document_manager.py:614 | `'%'` matches every string |
| SqlLike.LikePrefix | document_manager.py:614 | `s` is `LIKE` the pattern `t%` exactly when `s` starts with `t`, ignoring case |
| SqlLike.LikeSuffix | document_manager.py:614 | `s` is `LIKE` the pattern `%q` exactly when some suffix of `s` is `LIKE q` |
| SqlLike.LikeContains | document_manager.py:614-616 | `s` is `LIKE` the pattern `%t%` exactly when `t` occurs in `s`, ignoring case |
| SqlLike.FoldedAtUpper | document_manager.py:614 | matching that ignores case is plain matching of the upper-cased strings |
| SqlLike.LikeIsFoldedContains | document_manager.py:614-616 | for a term without wildcards, the search pattern matches exactly when the upper-cased term occurs in the upper-cased field |
| SqlLike.ContainsIsLike | document_manager.py:614-619 | a case-sensitive occurrence is always a `LIKE` match |
| DocumentStore.AfterDeletes | document_manager.py:221-228 | deleting a selection appends at most one entry per selected id |
| DocumentStore.DeleteStep | document_manager.py:221-228 | one more id of the selection adds its entry, and its id to the removed set |
| DocumentStore.DeletesAppendOnly | document_manager.py:221-228 | deletion keeps every earlier entry, including ADD entries. It appends only DELETE entries, numbered on, by `SYSTEM`, at `now`, each about a selected id |
| DocumentStore.DeleteLogged | document_manager.py:225-228 | every selected id whose audit write succeeds gets a DELETE entry, whether or not the document existed |
| DocumentStore.AppendedKeeps | document_manager.py:538-547 | an audit write never changes an existing entry |
| DocumentStore.MaxId | document_manager.py:498-499 | `COALESCE(MAX(id), 0)` is an upper bound of the ids: 0 when there are none, otherwise one of them |
| DocumentStore.MinId | document_manager.py:567 | the smallest id of a non-empty set |
| DocumentStore.SortedIds | document_manager.py:564-568 | `ORDER BY id ASC` lists every id exactly once, in increasing order |
| DocumentStore.MatchType | document_manager.py:619 | the tag is `"Number"` exactly when the term is a case-sensitive substring of the number, else `"Name"` |
| DocumentStore.Store.constructor | document_manager.py:53-75 | a fresh database has no documents and no audit entries |
| DocumentStore.Store.LogAction | document_manager.py:535-554 | appends one entry with the next id, the document id, the action, `now` and user `SYSTEM`; a failed write changes nothing |
| DocumentStore.Store.Insert | document_manager.py:505-516 | stores the new row with both timestamps `now` and status `PENDING` |
| DocumentStore.Store.Update | document_manager.py:272-280 | replaces the raw text and modification time of the row if it exists, and changes nothing else |
| DocumentStore.Store.Create | document_manager.py:494-533 | the new id is the largest id plus one, and 1 when the store is empty, the new row has both timestamps `now` and status `PENDING`, other rows are unchanged, and one ADD entry follows when the write succeeds |
| DocumentStore.Store.LoadForEdit | document_manager.py:248-253 | gives the stored raw text exactly when the document exists |
| DocumentStore.Store.SaveChanges | document_manager.py:265-291 | the stripped text and `now` replace the row's text and modification time if the row exists; the EDIT entry is written either way |
| DocumentStore.Store.EditDocument | document_manager.py:237-291 | a missing id changes nothing, the clock included; otherwise only that document's text and modification time change (added date, status and other documents stay), one EDIT entry is written and the clock reads `now` |
| DocumentStore.Store.Tick | document_manager.py:270 | a later clock reading keeps the invariant |
| DocumentStore.Store.DeleteOne | document_manager.py:225-228 | removes the row if present, then appends the DELETE entry |
| DocumentStore.Store.DeleteDocuments | document_manager.py:209-235 | removes exactly the selected ids and appends their DELETE entries in selection order, whether or not the documents existed |
| DocumentStore.Store.AddThenDelete | document_manager.py:494-535 | adding then deleting a document restores the documents, the log keeps the ADD entry and gains the DELETE entry after it, and the clock reads the deletion time |
| DocumentStore.Store.LoadDocuments | document_manager.py:556-577 | lists every document exactly once, by increasing id, with its added date, modification date and status |
| DocumentStore.Store.LoadAuditLog | document_manager.py:579-597 | lists every audit entry, latest timestamp first |
| DocumentStore.Store.Search | document_manager.py:599-624 | a blank term gives nothing; otherwise exactly the documents whose number or name is `LIKE '%term%'`, each with its tag, latest added first |
| DocumentStore.ScanSound | document_manager.py:612-623 | every result is a matching scanned document with its fields and tag |
| DocumentStore.ScanComplete | document_manager.py:612-623 | every matching scanned document is among the results |
| DocumentStore.ScanDescending | document_manager.py:615 | scanning ascending ids gives results by descending id |
| DocumentStore.MatchesIgnoresCase | document_manager.py:612-616 | for a term without wildcards, the search condition is a case-insensitive substring test on number or name |
| DocumentStore.NumberHitsAreTagged | document_manager.py:614-619 | a document whose number contains the term is found and tagged `"Number"` |
| DocumentStore.TagIsCaseSensitive | document_manager.py:614-619 | the number `AB1234` matches the term `ab12` but is tagged `"Name"` |
| DocumentStore.FirstUnknown | document_manager.py:612-616 | gives the first named column that the table does not have (every earlier one exists), or nothing when all exist |
| DocumentStore.SearchAsWritten | document_manager.py:599-616 | a blank term returns before the query runs |
| DocumentStore.SearchAsWrittenFails | document_manager.py:599-616 | every non-blank term makes the query fail on the missing column `doc_type` |

## Left out

- **Not modelled.**
  - The user interface: tkinter, drag and drop, dialogs and message boxes.
  - The OCR engines: DocTR and `pytesseract.image_to_string`.
  - The OpenCV image preprocessing.
  - The `print` of errors.
  - `main`, `__del__` and the Tesseract path setup.
- SQLite itself is replaced by the two fields of `Store`. This leaves out:
  - cursors, transactions and commits;
  - removing the old database file at start-up;
  - the `FOREIGN KEY` declaration, which SQLite does not enforce by default.
- `datetime.now()` becomes the `now` parameter, with `clock <= now`.
  - `LogAction` uses the same `now` as the operation that calls it. The
    program reads the clock again, a moment later.
  - Timestamps are numbers, not ISO-8601 strings. Their order is the order
    the program sorts by.
- Characters are ASCII.
  - Python's Unicode `isspace`, `isalnum`, `upper`, `title` and `\d` agree
    with the model on ASCII characters only.
- `post_process_text`'s `except` branch is not modelled. It falls back to
  the input, but no step can raise for a string input.
- The `metadata` entry of `parse_document_info`'s result is left out. It is
  always an empty dict.
- The OCR-specific parts of `process_image` and `extract_text` are left
  out, except for the cleaning they call.
- `show_document_details` and `view_selected_document` are left out. They
  only read one row for display.
- Equal timestamps and equal `date_added` values have no defined order in
  SQL.
  - The model lists the audit log newest entry first.
  - It lists search results by descending id, which is consistent with
    `date_added` descending.
- The `details` column of the audit log is not modelled. Every caller of
  `log_action` passes `"Document <id> added to system"`, `"... edited"` or
  `"... deleted from system"`, a text fixed by the entry's document id and
  action, which the model keeps.
- `Store.Search` models the search as evidently intended (see Findings).
  Each document's number and name are a `DocumentInfo` value the caller
  supplies to `Store.Create`. The program stores no such values.
- `Store.EditDocument`: the dialog between the existence check and the save
  is not modelled. The document is assumed not to be deleted while the
  dialog is open. `SaveChanges` alone covers that case.
- `TextCleaner.OrderPreserved` is stated on the list of input lines.
  `CleanedTextLines` links that list to the text.

## Findings

| source | as written | input that shows it | evidently intended | confidence | as-written member | corrected member |
|---|---|---|---|---|---|---|
| document_manager.py:612-616 | the search query selects and filters on `doc_type`, `doc_number` and `full_name`, but the `documents` table (document_manager.py:54-62) has only `id`, `raw_text`, `date_added`, `last_modified` and `verification_status` | any non-blank term, e.g. `SMITH`: SQLite refuses the query with "no such column: doc_type" and no result is shown | the documents carry the fields `parse_document_info` extracts, and the search returns the documents whose number or name is `LIKE '%term%'`, tagged and ordered as the code says | not executed | DocumentStore.SearchAsWrittenFails | DocumentStore.Store.Search |
