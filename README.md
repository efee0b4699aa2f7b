# gbkDetect decision engine, in Dafny

gbkDetect walks a directory tree for `.cpp` files. It asks a statistical
detector for each file's encoding. Files whose label belongs to the GBK
family ("gb…" or "windows…") are read as GBK and searched for known
mojibake signatures. All other labelled files are converted to GBK in place.
A helper also lists the positions of a decoded text that hold a garbled
character.

This project models the decision logic of that pipeline and proves what it
does:

- `Utf8` encodes one Unicode scalar value as UTF-8 (RFC 3629 section 3). It
  also decodes lossily, dropping ill-formed bytes as Python's
  `errors='ignore'` does. The round trip is proved for every scalar value.
- `Text` holds the Python string operations the scripts use:
  `str.split('\n')`, the substring test `p in s`, `startswith`, and `lower`
  on ASCII labels. The scripts never call `join`. `Join` is there only to
  state what the split returns.
- `GbkDetect` holds the core:
  - the CJK range test and the "has Chinese text" scan;
  - the per-position garbled scan `find_chinese_garbled_chars`;
  - the pattern scan inside `check_gbk_file_for_garbled_text`;
  - the per-file routing branch of `process_cpp_files`.

The loops of the source are methods with loop invariants. Each method is
proved against a specification function or predicate, and the properties
are proved as lemmas about those.

`gbkDetect_CN.py` is the same program with Chinese messages, line for line.
The model covers it too. Its corresponding lines are:
- `is_chinese_character`: 18-22
- `has_chinese_text`: 24-31
- `find_chinese_garbled_chars`: 33-52. Here the Chinese branch (43-45) is a
  bare `pass` without the neighbour test.
- the pattern list: 87
- the pattern loop: 88-94
- the return of the check: 103
- routing: 123-146

The table cites `gbkDetect.py`.

## Model

| member | source | states |
|---|---|---|
| `Utf8.Encode` | gbkDetect.py:57-58 | `char.encode('utf-8')` of one scalar value takes 1, 2, 3 or 4 bytes by code-point range; every byte after the first is a continuation byte |
| `Utf8.DecodeFirst` | gbkDetect.py:57 | decoding a well-formed front sequence consumes 1 to 4 bytes; a one-byte sequence is the ASCII character of that byte, and only ASCII takes one byte |
| `Utf8.DecodeIgnoring` | gbkDetect.py:57 | `decode('utf-8', errors='ignore')` never produces more characters than it was given bytes |
| `Utf8.DecodeFirstEncode` | gbkDetect.py:57-58 | the decoder reads back exactly the character and the length the encoder wrote, for every scalar value |
| `Utf8.RoundTrip` | gbkDetect.py:57-58 | lossy-decoding the UTF-8 form of any character gives that character alone |
| `Text.Split` | gbkDetect.py:38 | `text.split('\n')` gives count('\n') + 1 pieces; none contains '\n'; joining them with '\n' restores the text |
| `Text.SplitJoin` | gbkDetect.py:38 | splitting a join of newline-free pieces gives the same pieces back, so the split is the unique such decomposition |
| `Text.ContainsIsOccurs` | gbkDetect.py:102 | the substring test `pattern in line` holds exactly when the pattern occurs at some index of the line |
| `Text.OccursAtFront` | gbkDetect.py:102 | an occurrence at index 0 is exactly a prefix |
| `Text.OccursAfterFront` | gbkDetect.py:102 | dropping the first character moves each later occurrence one index to the left |
| `Text.OccursBesideSeparator` | gbkDetect.py:99-102 | an occurrence of a newline-free pattern in `a + "\n" + b` lies wholly in `a` or wholly in `b` |
| `Text.OccursAcrossSeparator` | gbkDetect.py:99-102 | a newline-free pattern occurs in `a + "\n" + b` exactly when it occurs in `a` or in `b` |
| `Text.OccursInJoin` | gbkDetect.py:99-102 | a newline-free pattern occurs in the joined lines exactly when it occurs in one of the lines |
| `Text.OccursSingle` | gbkDetect.py:96 | a one-character pattern such as "锘" occurs exactly when the character is in the text |
| `Text.Lower` | gbkDetect.py:138 | lower-casing keeps the length and lowers each ASCII capital, leaving every other character unchanged |
| `Text.LowerIdempotent` | gbkDetect.py:138 | lower-casing an already lower-cased label changes nothing |
| `GbkDetect.IsGarbledCharacter` | gbkDetect.py:57-58 | the per-character test as written, a replacement character or a failed UTF-8 round trip of more than one byte. Its contract is carried by `GbkDetect.GarbledIffReplacement` |
| `GbkDetect.IsGbkCompatible` | gbkDetect.py:140 | the prefix test on the lower-cased label, "gb" or "windows". Its contract is carried by `GbkDetect.RouteByCaseInsensitivePrefix` |
| `Text.Contains` | gbkDetect.py:102 | the substring test `pattern in line`, trying each start position from the left. Its contract is carried by `Text.ContainsIsOccurs` |
| `Text.StartsWith` | gbkDetect.py:140 | `str.startswith`, a sequence-prefix test; `GbkDetect.RouteByCaseInsensitivePrefix` states what it decides for routing |
| `GbkDetect.IsChineseCharacter` | gbkDetect.py:18-22 | true exactly when U+4E00 ≤ c ≤ U+9FFF, inclusive at both ends |
| `GbkDetect.HasChineseText` | gbkDetect.py:24-31 | the early-return scan answers true exactly when some character of the text is Chinese, so false on the empty text |
| `GbkDetect.HasChineseConcat` | gbkDetect.py:24-31 | a concatenation has Chinese text exactly when one of its halves has |
| `GbkDetect.GarbledIffReplacement` | gbkDetect.py:57-59 | the UTF-8 round-trip disjunct never fires: a character is reported exactly when it is U+FFFD |
| `GbkDetect.GarbledFindingsExact` | gbkDetect.py:37-61 | a triple (n, i, c) is returned exactly when 1 ≤ n ≤ #lines, 0 ≤ i < len(line n), c is the character at that place, and c is U+FFFD |
| `GbkDetect.GarbledFindingsOrdered` | gbkDetect.py:37-61 | the triples come in line-major, then column, order, with no repeats |
| `GbkDetect.GarbledFindingsCharacterized` | gbkDetect.py:37-61 | both facts above, for every triple at once |
| `GbkDetect.LineFindingsMembers` | gbkDetect.py:41-59 | within line n, the expected list holds a triple exactly for each column below the bound whose character is U+FFFD |
| `GbkDetect.FindingsUpToMembers` | gbkDetect.py:40-59 | for the first m lines, the expected list holds exactly the triples of U+FFFD positions in lines 1..m |
| `GbkDetect.FindChineseGarbledChars` | gbkDetect.py:33-61 | the nested loops, with the source's per-character test, return exactly the U+FFFD positions as (line from 1, column from 0, character) triples, in line-major then column order. The Chinese-neighbour branch has no effect on the result |
| `GbkDetect.CheckGbkFileForGarbledText` | gbkDetect.py:87-116 | true exactly when the GBK read succeeded and some pattern occurs in some line. A failed read gives false. The trailing Chinese-text test changes nothing |
| `GbkDetect.ScanIsOccurrenceInContent` | gbkDetect.py:99-103 | for newline-free patterns, "some pattern in some line" equals "some pattern in the whole content" |
| `GbkDetect.EmptyPatternAlwaysMatches` | gbkDetect.py:96-103 | an empty pattern in the list makes the scan true for every content |
| `GbkDetect.AsWrittenAlwaysMatches` | gbkDetect.py:96 | with the list as written (its third entry is ''), every file that reads as GBK is reported garbled |
| `GbkDetect.PatternRepeatsIrrelevant` | gbkDetect.py:96-103 | the scan depends only on which patterns are listed, so the repeated '锘' changes nothing |
| `GbkDetect.IntendedMatchesSignatures` | gbkDetect.py:96 | without the empty entry, the scan is true exactly when the content contains "锟斤拷" or "锘" |
| `GbkDetect.IntendedAcceptsCleanText` | gbkDetect.py:96 | without the empty entry, a content with neither "锟" nor "锘" is not reported |
| `GbkDetect.AsWrittenFlagsCleanText` | gbkDetect.py:96 | a content with neither "锟" nor "锘" is reported by the list as written and not by the list without the empty entry |
| `GbkDetect.RouteFile` | gbkDetect.py:133-156 | a missing label means skip, and only a missing label does. Otherwise the action carries the lower-cased label |
| `GbkDetect.RouteByCaseInsensitivePrefix` | gbkDetect.py:137-156 | a labelled file is checked exactly when its label begins, ignoring case, with "gb" or "windows". Exactly one of check and convert runs |
| `GbkDetect.RouteIgnoresCase` | gbkDetect.py:138-140 | labels equal up to ASCII case are routed identically |
| `GbkDetect.RouteNormalizedIsStable` | gbkDetect.py:137-140 | routing the lower-cased label gives the same action as routing the label as detected |
| `GbkDetect.RouteGbkFamilyExamples` | gbkDetect.py:137-149 | "GB18030" and "Windows-1252" go to the check, carrying "gb18030" and "windows-1252" |
| `GbkDetect.RouteOtherExamples` | gbkDetect.py:133-156 | "SHIFT_JIS" and "utf-8" go to conversion; no label means skip |
| `GbkDetect.ProcessFiles` | gbkDetect.py:126-156 | the loop returns exactly the batch's actions, and it reports an abort exactly when some file's detection raises |
| `GbkDetect.BatchActionsPrefix` | gbkDetect.py:126-156 | the files act in order on a prefix of the list. Each file there was detected and gets the action its label selects; a file with no label is skipped and the loop goes on. The prefix ends only at the end of the list or at a file whose detection raised |
| `GbkDetect.AsWrittenAbortsBatch` | gbkDetect.py:126-131 | a detection that raises at position k leaves every later file without an action, while the guarded batch gives every file one |
| `GbkDetect.GuardedBatchCoversEveryFile` | gbkDetect.py:126-156 | with the failure contained, every file gets an action in order: skip for a failed detection, otherwise the action of its label |
| `GbkDetect.BatchWithoutFailuresIsGuarded` | gbkDetect.py:126-156 | when no detection raises, the batch as written and the guarded batch are the same |

## Findings

| source | as written | input that shows it | evidently intended | confidence | as-written member | corrected member |
|---|---|---|---|---|---|---|
| gbkDetect.py:130 (and gbkDetect_CN.py:120) | `detect_encoding` opens the file (gbkDetect.py:13) with no handler around the call, so an exception ends `process_cpp_files` | a tree holding a directory named `old.cpp` (matched by `rglob("*.cpp")`) or an unreadable `.cpp` file before other `.cpp` files | the failing file is reported and skipped, and the rest of the batch is processed. Every other per-file failure is contained: `convert_to_gbk` (gbkDetect.py:67, 83-85) and `check_gbk_file_for_garbled_text` (91, 114-116) catch `Exception` and return False, and an undetected label is skipped with `continue` (133-135) | not executed; medium, because the script contains every other per-file failure, but no line states the intent for this one | `GbkDetect.AsWrittenAbortsBatch` | `GbkDetect.GuardedBatchCoversEveryFile` |
| gbkDetect.py:96 (and gbkDetect_CN.py:87) | the signature list `['锟斤拷', '锘', '', '锘']` holds an empty string, and `'' in line` is always true | any file that decodes as GBK, e.g. one holding only `int x;` | only the non-empty signatures are matched, so a file is reported only when it contains "锟斤拷" or "锘" | not executed; high that the empty entry is unintended | `GbkDetect.AsWrittenFlagsCleanText` | `GbkDetect.IntendedMatchesSignatures` |

`CheckGbkFileForGarbledText` takes the signature list as a parameter. The
source's list is `AsWrittenPatterns`. The corrected list is
`IntendedPatterns`, which has no empty entry and no repeat.

## Left out

- `detect_encoding` (gbkDetect.py:9-16) calls the statistical detector of the `chardet` library, a foreign library. Its outcome is an input of `ProcessFiles`: a label, no label, or a read that raises. The detector's `open` at gbkDetect.py:13 raises on a failed read, and the model follows the code.
- `convert_to_gbk` (gbkDetect.py:63-85) is not modelled. It only does file reads and writes with `codecs`, an in-place overwrite, and lossy GBK encoding, and no GBK code table is part of this model. Its one decision, returning False when the detector gives no label (gbkDetect.py:70-72), is not modelled either.
- The file read in `check_gbk_file_for_garbled_text` (gbkDetect.py:92-93) and its exception handler (114-116) are represented only by the `read: Option<string>` parameter. `None` stands for any failure, and the method then returns false.
- The red highlighting with `line.replace` (gbkDetect.py:105) and every `print` are left out. They are console output.
- `GbkDetect.CheckGbkFileForGarbledText`: the model assumes console output never fails. In the source, the `print` at gbkDetect.py:106 sits inside the `try`. If the console cannot encode the line (a `UnicodeEncodeError`), the handler at 114-116 returns False although a pattern matched. The model's `read` parameter only stands for failures of the read.
- `GbkDetect.ProcessFiles`: a `print` in the loop (gbkDetect.py:127-156) that raises would also end the batch. This is not modelled; only an exception from the detector is.
- `Path.rglob`, `input()`, `os.path.exists` and `exit(1)` in `__main__` (gbkDetect.py:122, 158-169) are left out. They are directory traversal and interactive glue. `ProcessFiles` takes the detector's labels for the found files, in order.
- `Text.Lower`: it models Python's `str.lower` only on ASCII (A-Z). The detector's labels are ASCII, so this matches.
- `Utf8.Encode`: the `errors='ignore'` of the encode step is not modelled. A Dafny `char` is always a Unicode scalar value, so nothing is ever dropped. Python's lone surrogates, which are not scalar values, are outside the model.
- `Utf8.DecodeIgnoring`: the decoder drops an ill-formed sequence one byte at a time. Python drops the maximal ill-formed subpart at once. Both produce the same text, because a continuation byte never starts a well-formed sequence. The model only applies the decoder to the output of `Encode`.
