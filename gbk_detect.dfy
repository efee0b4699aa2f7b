/**
  The decision engine of the gbkDetect scripts: which characters are Chinese,
  which positions of a decoded text hold a garbled character, whether a file
  read as GBK contains a known garbled signature, and whether a file goes to
  the garbled-text check or to conversion, given the label the encoding
  detector produced.

  The detector itself, the file reads and writes and the console output are
  not modelled: the detected label and the text read from a file are
  parameters.
 */
module GbkDetect {
  import opened Wrappers
  import opened Text
  import Utf8

  // ---------------------------------------------------------------------------
  // Chinese characters

  /** A character of the CJK Unified Ideographs block, U+4E00 to U+9FFF inclusive. */
  function IsChineseCharacter(c: char): (r: bool)
    ensures r <==> 0x4E00 <= c as int <= 0x9FFF
  {
    '\U{4E00}' <= c <= '\U{9FFF}'
  }

  /** Some character of `text` is Chinese. */
  ghost predicate HasChinese(text: string) {
    exists i :: 0 <= i < |text| && IsChineseCharacter(text[i])
  }

  /** The scan for a Chinese character, stopping at the first one. */
  method HasChineseText(text: string) returns (found: bool)
    ensures found <==> HasChinese(text)
  {
    for i := 0 to |text|
      invariant forall j :: 0 <= j < i ==> !IsChineseCharacter(text[j])
    {
      if IsChineseCharacter(text[i]) {
        return true;
      }
    }
    return false;
  }

  /** A concatenation holds Chinese text exactly when one of its halves does. */
  lemma HasChineseConcat(a: string, b: string)
    ensures HasChinese(a + b) <==> HasChinese(a) || HasChinese(b)
  {
    var s := a + b;
    if HasChinese(s) {
      var i :| 0 <= i < |s| && IsChineseCharacter(s[i]);
      if i >= |a| {
        assert b[i - |a|] == s[i];
      }
    }
    if HasChinese(a) {
      var i :| 0 <= i < |a| && IsChineseCharacter(a[i]);
      assert s[i] == a[i];
    }
    if HasChinese(b) {
      var i :| 0 <= i < |b| && IsChineseCharacter(b[i]);
      assert s[|a| + i] == b[i];
    }
  }

  // ---------------------------------------------------------------------------
  // Garbled characters, position by position

  /** The replacement character U+FFFD. */
  const Replacement: char := '\U{FFFD}'

  /**
    The per-character test: the character is the replacement character, or
    its UTF-8 form does not come back from a lossy round trip and is longer
    than one byte.
   */
  function IsGarbledCharacter(c: char): bool {
    var encoded := Utf8.Encode(c);
    c == Replacement || (Utf8.DecodeIgnoring(encoded) != [c] && |encoded| > 1)
  }

  /** The round-trip disjunct never fires: a character is garbled exactly when it is U+FFFD. */
  lemma GarbledIffReplacement(c: char)
    ensures IsGarbledCharacter(c) <==> c == Replacement
  {
    Utf8.RoundTrip(c);
  }

  /** A finding: the line (numbered from 1), the column (from 0) and the character there. */
  datatype Finding = Finding(line: nat, column: nat, character: char)

  /**
    The expected findings of line number `n` in its columns below `k`, left
    to right: one for each position holding U+FFFD.
   */
  function LineFindings(line: string, n: nat, k: nat): seq<Finding>
    requires k <= |line|
  {
    if k == 0 then []
    else
      LineFindings(line, n, k - 1)
      + (if line[k - 1] == Replacement then [Finding(n, k - 1, line[k - 1])] else [])
  }

  /** The findings of the first `m` lines, line after line. */
  function FindingsUpTo(lines: seq<string>, m: nat): seq<Finding>
    requires m <= |lines|
  {
    if m == 0 then []
    else FindingsUpTo(lines, m - 1) + LineFindings(lines[m - 1], m, |lines[m - 1]|)
  }

  /** The lines of a text: the pieces between newline characters. */
  function Lines(text: string): seq<string> {
    Split(text, '\n')
  }

  /** The findings of a whole text. */
  function GarbledFindings(text: string): seq<Finding> {
    var lines := Lines(text);
    FindingsUpTo(lines, |lines|)
  }

  /** `f` names a real position of `lines`, and the character it records is the one there. */
  ghost predicate IndexesInto(lines: seq<string>, f: Finding) {
    1 <= f.line <= |lines| && f.column < |lines[f.line - 1]| && f.character == lines[f.line - 1][f.column]
  }

  /** Line-major, then column, order. */
  predicate Precedes(f: Finding, g: Finding) {
    f.line < g.line || (f.line == g.line && f.column < g.column)
  }

  ghost predicate Ordered(fs: seq<Finding>) {
    forall i, j :: 0 <= i < j < |fs| ==> Precedes(fs[i], fs[j])
  }

  lemma {:induction false} LineFindingsMembers(line: string, n: nat, k: nat, f: Finding)
    requires k <= |line|
    ensures f in LineFindings(line, n, k) <==>
              f.line == n && f.column < k && f.character == line[f.column] && f.character == Replacement
  {
    if k > 0 {
      LineFindingsMembers(line, n, k - 1, f);
    }
  }

  /** Every finding of `fs` is on line `n`, in a column below `k`. */
  ghost predicate OnLineBelow(fs: seq<Finding>, n: nat, k: nat) {
    forall i :: 0 <= i < |fs| ==> fs[i].line == n && fs[i].column < k
  }

  lemma {:induction false} LineFindingsOrdered(line: string, n: nat, k: nat)
    requires k <= |line|
    ensures OnLineBelow(LineFindings(line, n, k), n, k)
    ensures Ordered(LineFindings(line, n, k))
  {
    if k > 0 {
      var front := LineFindings(line, n, k - 1);
      var all := LineFindings(line, n, k);
      LineFindingsOrdered(line, n, k - 1);
      assert all == front + (if line[k - 1] == Replacement then [Finding(n, k - 1, line[k - 1])] else []);
      forall i | 0 <= i < |all|
        ensures all[i].line == n && all[i].column < k
      {
        if i < |front| {
          assert all[i] == front[i];
        }
      }
      forall i, j | 0 <= i < j < |all|
        ensures Precedes(all[i], all[j])
      {
        if j < |front| {
          assert all[i] == front[i] && all[j] == front[j];
        } else {
          assert all[i] == front[i];
        }
      }
    }
  }

  lemma {:induction false} FindingsUpToMembers(lines: seq<string>, m: nat, f: Finding)
    requires m <= |lines|
    ensures f in FindingsUpTo(lines, m) <==>
              f.line <= m && IndexesInto(lines, f) && f.character == Replacement
  {
    if m > 0 {
      var front := FindingsUpTo(lines, m - 1);
      var last := LineFindings(lines[m - 1], m, |lines[m - 1]|);
      FindingsUpToMembers(lines, m - 1, f);
      LineFindingsMembers(lines[m - 1], m, |lines[m - 1]|, f);
      assert FindingsUpTo(lines, m) == front + last;
      assert f in front + last <==> f in front || f in last;
    }
  }

  lemma {:induction false} FindingsUpToOrdered(lines: seq<string>, m: nat)
    requires m <= |lines|
    ensures forall i :: 0 <= i < |FindingsUpTo(lines, m)| ==> 1 <= FindingsUpTo(lines, m)[i].line <= m
    ensures Ordered(FindingsUpTo(lines, m))
  {
    if m > 0 {
      var front := FindingsUpTo(lines, m - 1);
      var last := LineFindings(lines[m - 1], m, |lines[m - 1]|);
      FindingsUpToOrdered(lines, m - 1);
      LineFindingsOrdered(lines[m - 1], m, |lines[m - 1]|);
      var all := front + last;
      forall i, j | 0 <= i < j < |all|
        ensures Precedes(all[i], all[j])
      {
        if j < |front| {
          assert Precedes(front[i], front[j]);
        } else if i >= |front| {
          assert Precedes(last[i - |front|], last[j - |front|]);
        } else {
          assert all[i].line <= m - 1 && all[j].line == m;
        }
      }
    }
  }

  /**
    A position is reported exactly when it holds U+FFFD, and the finding
    records a real line (from 1), column (from 0) and the character there.
   */
  lemma GarbledFindingsExact(text: string, f: Finding)
    ensures f in GarbledFindings(text) <==> IndexesInto(Lines(text), f) && f.character == Replacement
  {
    var lines := Lines(text);
    FindingsUpToMembers(lines, |lines|, f);
  }

  /** Findings come in line-major, then column, order. */
  lemma GarbledFindingsOrdered(text: string)
    ensures Ordered(GarbledFindings(text))
  {
    var lines := Lines(text);
    FindingsUpToOrdered(lines, |lines|);
  }

  /** The two facts above, for all findings at once. */
  lemma GarbledFindingsCharacterized(text: string)
    ensures forall f :: f in GarbledFindings(text) <==> IndexesInto(Lines(text), f) && f.character == Replacement
    ensures Ordered(GarbledFindings(text))
  {
    forall f
      ensures f in GarbledFindings(text) <==> IndexesInto(Lines(text), f) && f.character == Replacement
    {
      GarbledFindingsExact(text, f);
    }
    GarbledFindingsOrdered(text);
  }

  /**
    The nested scan over lines and columns. The branch on a Chinese character
    whose neighbours are not Chinese does nothing, so the result does not
    depend on it.
   */
  method FindChineseGarbledChars(text: string) returns (garbled: seq<Finding>)
    ensures garbled == GarbledFindings(text)
    ensures forall f :: f in garbled <==> IndexesInto(Lines(text), f) && f.character == Replacement
    ensures Ordered(garbled)
  {
    garbled := [];
    var lines := Lines(text);
    for idx := 0 to |lines|
      invariant garbled == FindingsUpTo(lines, idx)
    {
      var lineNum := idx + 1;
      var line := lines[idx];
      for i := 0 to |line|
        invariant garbled == FindingsUpTo(lines, idx) + LineFindings(line, lineNum, i)
      {
        var ch := line[i];
        GarbledIffReplacement(ch);
        if IsChineseCharacter(ch) {
          if i > 0 && i < |line| - 1 {
            var prevChar, nextChar := line[i - 1], line[i + 1];
            if !IsChineseCharacter(prevChar) && !IsChineseCharacter(nextChar) {
              // a Chinese character between two non-Chinese ones: no action
            }
          }
        }
        if IsGarbledCharacter(ch) {
          garbled := garbled + [Finding(lineNum, i, ch)];
        }
        assert LineFindings(line, lineNum, i + 1)
               == LineFindings(line, lineNum, i) + (if ch == Replacement then [Finding(lineNum, i, ch)] else []);
      }
      assert FindingsUpTo(lines, idx + 1) == FindingsUpTo(lines, idx) + LineFindings(line, lineNum, |line|);
    }
    GarbledFindingsCharacterized(text);
  }

  // ---------------------------------------------------------------------------
  // Known garbled signatures, line by line

  /** The signature list as the scripts spell it: "锟斤拷", "锘", the empty string, and "锘" again. */
  const AsWrittenPatterns: seq<string> := ["\U{951F}\U{65A4}\U{62F7}", "\U{9518}", "", "\U{9518}"]

  /** The signature list without the empty entry and without the repeat. */
  const IntendedPatterns: seq<string> := ["\U{951F}\U{65A4}\U{62F7}", "\U{9518}"]

  /** Some pattern occurs in `line`. */
  ghost predicate LineHasPattern(line: string, patterns: seq<string>) {
    exists j :: 0 <= j < |patterns| && OccursIn(patterns[j], line)
  }

  /** Some pattern occurs in some line. */
  ghost predicate SomeLineHasPattern(lines: seq<string>, patterns: seq<string>) {
    exists n :: 0 <= n < |lines| && LineHasPattern(lines[n], patterns)
  }

  /**
    The garbled-text check of a file read as GBK. `read` is the decoded text,
    or None when the read or the strict GBK decoding failed, in which case
    the check reports False. The flag is set for every (line, pattern) pair
    that matches; the final test for Chinese text has no effect.
   */
  method CheckGbkFileForGarbledText(read: Option<string>, patterns: seq<string>) returns (foundGarbled: bool)
    ensures foundGarbled <==> read.Some? && SomeLineHasPattern(Lines(read.value), patterns)
  {
    if read.None? {
      return false;
    }
    var content := read.value;
    foundGarbled := false;
    var lines := Lines(content);
    for n := 0 to |lines|
      invariant foundGarbled <==> exists n' :: 0 <= n' < n && LineHasPattern(lines[n'], patterns)
    {
      for j := 0 to |patterns|
        invariant foundGarbled <==>
                    (exists n' :: 0 <= n' < n && LineHasPattern(lines[n'], patterns))
                    || (exists j' :: 0 <= j' < j && OccursIn(patterns[j'], lines[n]))
      {
        ContainsIsOccurs(lines[n], patterns[j]);
        if Contains(lines[n], patterns[j]) {
          foundGarbled := true;
        }
      }
    }
    if !foundGarbled {
      var hasChinese := HasChineseText(content);
      if hasChinese {
        // no further detection
      }
    }
  }

  /**
    Since no pattern of a newline-free list can span a line break, matching
    line by line is the same as matching the whole content.
   */
  lemma ScanIsOccurrenceInContent(content: string, patterns: seq<string>)
    requires forall j :: 0 <= j < |patterns| ==> '\n' !in patterns[j]
    ensures SomeLineHasPattern(Lines(content), patterns) <==>
              exists j :: 0 <= j < |patterns| && OccursIn(patterns[j], content)
  {
    var lines := Lines(content);
    forall j | 0 <= j < |patterns|
      ensures OccursIn(patterns[j], content) <==> exists n :: 0 <= n < |lines| && OccursIn(patterns[j], lines[n])
    {
      OccursInJoin(patterns[j], lines, '\n');
    }
    if SomeLineHasPattern(lines, patterns) {
      var n :| 0 <= n < |lines| && LineHasPattern(lines[n], patterns);
      var j :| 0 <= j < |patterns| && OccursIn(patterns[j], lines[n]);
      assert OccursIn(patterns[j], content);
    }
    if exists j :: 0 <= j < |patterns| && OccursIn(patterns[j], content) {
      var j :| 0 <= j < |patterns| && OccursIn(patterns[j], content);
      var n :| 0 <= n < |lines| && OccursIn(patterns[j], lines[n]);
      assert LineHasPattern(lines[n], patterns);
    }
  }

  /** An empty pattern makes the check succeed on every content. */
  lemma EmptyPatternAlwaysMatches(content: string, patterns: seq<string>)
    requires [] in patterns
    ensures SomeLineHasPattern(Lines(content), patterns)
  {
    var lines := Lines(content);
    var j :| 0 <= j < |patterns| && patterns[j] == [];
    EmptyOccurs(lines[0]);
    assert LineHasPattern(lines[0], patterns);
  }

  /** With the list as written, every file that reads as GBK is reported garbled. */
  lemma AsWrittenAlwaysMatches(content: string)
    ensures SomeLineHasPattern(Lines(content), AsWrittenPatterns)
  {
    assert AsWrittenPatterns[2] == [];
    EmptyPatternAlwaysMatches(content, AsWrittenPatterns);
  }

  /** Only which patterns are listed matters, not their order or repetitions. */
  lemma PatternRepeatsIrrelevant(lines: seq<string>, ps: seq<string>, qs: seq<string>)
    requires forall p :: p in ps <==> p in qs
    ensures SomeLineHasPattern(lines, ps) <==> SomeLineHasPattern(lines, qs)
  {
    forall line | line in lines
      ensures LineHasPattern(line, ps) <==> LineHasPattern(line, qs)
    {
      if LineHasPattern(line, ps) {
        var j :| 0 <= j < |ps| && OccursIn(ps[j], line);
        assert ps[j] in qs;
        var j' :| 0 <= j' < |qs| && qs[j'] == ps[j];
        assert OccursIn(qs[j'], line);
      }
      if LineHasPattern(line, qs) {
        var j :| 0 <= j < |qs| && OccursIn(qs[j], line);
        assert qs[j] in ps;
        var j' :| 0 <= j' < |ps| && ps[j'] == qs[j];
        assert OccursIn(ps[j'], line);
      }
    }
  }

  /** Without the empty entry, the check reports exactly the contents holding "锟斤拷" or "锘". */
  lemma IntendedMatchesSignatures(content: string)
    ensures SomeLineHasPattern(Lines(content), IntendedPatterns) <==>
              OccursIn("\U{951F}\U{65A4}\U{62F7}", content) || '\U{9518}' in content
  {
    var ps := IntendedPatterns;
    assert '\n' !in ps[0] && '\n' !in ps[1];
    ScanIsOccurrenceInContent(content, ps);
    OccursSingle('\U{9518}', content);
    if exists j :: 0 <= j < |ps| && OccursIn(ps[j], content) {
      var j :| 0 <= j < |ps| && OccursIn(ps[j], content);
      assert j == 0 || j == 1;
    }
  }

  /** Without the empty entry, a content with neither "锟" nor "锘" is not reported. */
  lemma IntendedAcceptsCleanText(content: string)
    requires '\U{951F}' !in content && '\U{9518}' !in content
    ensures !SomeLineHasPattern(Lines(content), IntendedPatterns)
  {
    IntendedMatchesSignatures(content);
    if OccursIn("\U{951F}\U{65A4}\U{62F7}", content) {
      OccursHead("\U{951F}\U{65A4}\U{62F7}", content);
    }
  }

  /**
    The discrepancy: a content holding neither "锟" nor "锘" (plain code, say,
    or a Chinese comment) is reported garbled with the list as written and
    not with the list without the empty entry.
   */
  lemma AsWrittenFlagsCleanText(content: string)
    requires '\U{951F}' !in content && '\U{9518}' !in content
    ensures SomeLineHasPattern(Lines(content), AsWrittenPatterns)
    ensures !SomeLineHasPattern(Lines(content), IntendedPatterns)
  {
    AsWrittenAlwaysMatches(content);
    IntendedAcceptsCleanText(content);
  }

  // ---------------------------------------------------------------------------
  // Routing one file

  /** What happens to one file: skipped, checked for garbled text, or converted to GBK. */
  datatype Action = Skip | CheckGarbled(encoding: string) | Convert(encoding: string)

  /** A lower-case label of the GBK family, as the scripts judge it. */
  predicate IsGbkCompatible(name: string) {
    StartsWith(name, "gb") || StartsWith(name, "windows")
  }

  /**
    The branch of the per-file loop: no label means the file is skipped;
    otherwise the lower-cased label decides between the garbled-text check
    and conversion, and the lower-cased label travels with the action.
   */
  function RouteFile(detected: Option<string>): (action: Action)
    ensures action.Skip? <==> detected.None?
    ensures !action.Skip? ==> action.encoding == Lower(detected.value)
  {
    match detected
    case None => Skip
    case Some(name) =>
      var normalized := Lower(name);
      if IsGbkCompatible(normalized) then CheckGarbled(normalized) else Convert(normalized)
  }

  /**
    Stated on the label as detected: a file is checked exactly when the label
    begins, ignoring case, with "gb" or "windows"; every other labelled file
    is converted.
   */
  lemma RouteByCaseInsensitivePrefix(name: string)
    ensures RouteFile(Some(name)).CheckGarbled? <==>
              (|name| >= 2 && Lower(name[..2]) == "gb") || (|name| >= 7 && Lower(name[..7]) == "windows")
    ensures RouteFile(Some(name)).Convert? <==> !RouteFile(Some(name)).CheckGarbled?
  {
    var normalized := Lower(name);
    if |name| >= 2 {
      assert normalized[..2] == Lower(name[..2]);
    }
    if |name| >= 7 {
      assert normalized[..7] == Lower(name[..7]);
    }
  }

  /** Labels that differ only in ASCII case are routed alike. */
  lemma RouteIgnoresCase(a: string, b: string)
    requires Lower(a) == Lower(b)
    ensures RouteFile(Some(a)) == RouteFile(Some(b))
  {
  }

  /** Routing a label that is already lower-cased gives the same action as routing the label as detected. */
  lemma {:induction false} RouteNormalizedIsStable(name: string)
    ensures RouteFile(Some(Lower(name))) == RouteFile(Some(name))
  {
    LowerIdempotent(name);
  }

  /** "GB18030" and "Windows-1252" go to the check. */
  lemma RouteGbkFamilyExamples()
    ensures RouteFile(Some("GB18030")) == CheckGarbled("gb18030")
    ensures RouteFile(Some("Windows-1252")) == CheckGarbled("windows-1252")
  {
    assert Lower("GB18030") == "gb18030" && "gb" <= "gb18030";
    assert Lower("Windows-1252") == "windows-1252" && "windows" <= "windows-1252";
  }

  /** "SHIFT_JIS" and "utf-8" go to conversion; no label means skip. */
  lemma RouteOtherExamples()
    ensures RouteFile(Some("SHIFT_JIS")) == Convert("shift_jis")
    ensures RouteFile(Some("utf-8")) == Convert("utf-8")
    ensures RouteFile(None) == Skip
  {
    assert Lower("SHIFT_JIS") == "shift_jis" && "shift_jis"[0] == 's';
    assert Lower("utf-8") == "utf-8" && "utf-8"[0] == 'u';
  }

  /**
    What the detector gives for one file: a label or no label (`None`), or an
    exception, because the file is opened with no handler around the call
    (an unreadable file, or a directory whose name ends in ".cpp").
   */
  datatype Detection = Detected(result: Option<string>) | Unreadable

  /**
    The actions of the batch as the loop runs it: one per file, in order,
    until the first file whose detection raises; the exception leaves the
    loop, so no later file gets an action.
   */
  function BatchActions(detected: seq<Detection>): seq<Action> {
    if detected == [] then []
    else
      match detected[0]
      case Unreadable => []
      case Detected(result) => [RouteFile(result)] + BatchActions(detected[1..])
  }

  /**
    The batch as evidently intended: a file whose detection fails is skipped
    and every other file is still processed.
   */
  function GuardedBatchActions(detected: seq<Detection>): seq<Action> {
    if detected == [] then []
    else
      match detected[0]
      case Unreadable => [Skip] + GuardedBatchActions(detected[1..])
      case Detected(result) => [RouteFile(result)] + GuardedBatchActions(detected[1..])
  }

  /**
    The batch acts on a prefix of the files: each file of the prefix was
    detected and gets the action its label selects, and the prefix ends only
    at the end of the list or at a file whose detection raised.
   */
  lemma {:induction false} BatchActionsPrefix(detected: seq<Detection>)
    ensures |BatchActions(detected)| <= |detected|
    ensures forall i :: 0 <= i < |BatchActions(detected)| ==>
              detected[i].Detected? && BatchActions(detected)[i] == RouteFile(detected[i].result)
    ensures |BatchActions(detected)| < |detected| ==> detected[|BatchActions(detected)|].Unreadable?
  {
    if detected != [] && detected[0].Detected? {
      BatchActionsPrefix(detected[1..]);
    }
  }

  /** A failed detection at position `k` ends the batch there: files after it get no action. */
  lemma {:induction false} AsWrittenAbortsBatch(detected: seq<Detection>, k: nat)
    requires k < |detected| && detected[k].Unreadable?
    ensures |BatchActions(detected)| <= k
    ensures |GuardedBatchActions(detected)| == |detected|
  {
    BatchActionsPrefix(detected);
    GuardedBatchCoversEveryFile(detected);
  }

  /** With the failure contained, every file gets an action: skip when detection failed, its route otherwise. */
  lemma {:induction false} GuardedBatchCoversEveryFile(detected: seq<Detection>)
    ensures |GuardedBatchActions(detected)| == |detected|
    ensures forall i :: 0 <= i < |detected| ==>
              GuardedBatchActions(detected)[i] ==
                (if detected[i].Unreadable? then Skip else RouteFile(detected[i].result))
  {
    if detected != [] {
      GuardedBatchCoversEveryFile(detected[1..]);
      forall i | 1 <= i < |detected|
        ensures GuardedBatchActions(detected)[i] ==
                  (if detected[i].Unreadable? then Skip else RouteFile(detected[i].result))
      {
        assert detected[1..][i - 1] == detected[i];
      }
    }
  }

  /** When every detection succeeds, the batch as written and the guarded batch agree. */
  lemma {:induction false} BatchWithoutFailuresIsGuarded(detected: seq<Detection>)
    requires forall i :: 0 <= i < |detected| ==> detected[i].Detected?
    ensures BatchActions(detected) == GuardedBatchActions(detected)
  {
    if detected != [] {
      assert detected[0].Detected?;
      forall i | 0 <= i < |detected[1..]|
        ensures detected[1..][i].Detected?
      {
        assert detected[1..][i] == detected[i + 1];
      }
      BatchWithoutFailuresIsGuarded(detected[1..]);
    }
  }

  /** One step of the batch: a detected file adds its action and the batch goes on with the next file. */
  lemma BatchActionsStep(detected: seq<Detection>, k: nat, actions: seq<Action>, action: Action)
    requires k < |detected| && detected[k].Detected?
    requires actions + BatchActions(detected[k..]) == BatchActions(detected)
    requires action == RouteFile(detected[k].result)
    ensures (actions + [action]) + BatchActions(detected[k + 1..]) == BatchActions(detected)
  {
    assert detected[k..][1..] == detected[k + 1..];
  }

  /**
    The loop over the files found: each file gets the action its detected
    label selects, in enumeration order; a file with no label is skipped and
    the loop goes on, while a file whose detection raises ends the batch.
   */
  method ProcessFiles(detected: seq<Detection>) returns (actions: seq<Action>, aborted: bool)
    ensures actions == BatchActions(detected)
    ensures aborted <==> exists i :: 0 <= i < |detected| && detected[i].Unreadable?
  {
    actions := [];
    for k := 0 to |detected|
      invariant actions + BatchActions(detected[k..]) == BatchActions(detected)
      invariant forall i :: 0 <= i < k ==> detected[i].Detected?
    {
      if detected[k].Unreadable? {
        assert actions + BatchActions(detected[k..]) == actions + [];
        return actions, true;
      }
      var result := detected[k].result;
      var action: Action;
      if result.None? {
        action := Skip;
      } else {
        var normalized := Lower(result.value);
        if IsGbkCompatible(normalized) {
          action := CheckGarbled(normalized);
        } else {
          action := Convert(normalized);
        }
      }
      assert action == RouteFile(result);
      BatchActionsStep(detected, k, actions, action);
      actions := actions + [action];
    }
    assert detected[|detected|..] == [];
    assert actions + [] == actions;
    aborted := false;
  }
}
