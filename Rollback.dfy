/**
 * The rollback pass: every non-header entry of the target catalog whose
 * first form is missing, blank or a "none" placeholder gets back the value a
 * backup catalog holds for its msgid. Nothing else is touched.
 */
module Rollback {
  import opened Catalog

  // ---------------------------------------------------------------------------
  // String.prototype.trim and the "none" placeholder

  /** The characters `trim` removes: ECMAScript WhiteSpace and LineTerminator
      (tab, line tabulation, form feed, space, no-break space, the byte order
      mark, the Unicode space separators, and LF, CR, U+2028, U+2029). */
  const Whitespace: set<char> := {
    '\t', '\n', '\U{B}', '\U{C}', '\r', ' ', '\U{A0}', '\U{1680}',
    '\U{2000}', '\U{2001}', '\U{2002}', '\U{2003}', '\U{2004}', '\U{2005}',
    '\U{2006}', '\U{2007}', '\U{2008}', '\U{2009}', '\U{200A}',
    '\U{2028}', '\U{2029}', '\U{202F}', '\U{205F}', '\U{3000}', '\U{FEFF}'
  }

  predicate IsWs(c: char)
  {
    c in Whitespace
  }

  /** s with its leading whitespace removed. */
  function TrimStart(s: string): (r: string)
    ensures |r| <= |s| && r == s[|s| - |r|..]
    ensures forall i :: 0 <= i < |s| - |r| ==> IsWs(s[i])
    ensures r == "" || !IsWs(r[0])
    decreases |s|
  {
    if |s| > 0 && IsWs(s[0]) then
      var r := TrimStart(s[1..]);
      assert s[1..][|s| - 1 - |r|..] == s[|s| - |r|..];
      assert forall i :: 1 <= i < |s| - |r| ==> s[i] == s[1..][i - 1];
      r
    else s
  }

  /** s with its trailing whitespace removed. */
  function TrimEnd(s: string): (r: string)
    ensures |r| <= |s| && r == s[..|r|]
    ensures forall i :: |r| <= i < |s| ==> IsWs(s[i])
    ensures r == "" || !IsWs(r[|r| - 1])
    decreases |s|
  {
    if |s| > 0 && IsWs(s[|s| - 1]) then
      var r := TrimEnd(s[..|s| - 1]);
      assert forall i :: |r| <= i < |s| - 1 ==> s[i] == s[..|s| - 1][i];
      r
    else s
  }

  /** `s.trim()`. */
  function Trim(s: string): string
  {
    TrimEnd(TrimStart(s))
  }

  /** Every character of s is whitespace (true of the empty string). */
  predicate Blank(s: string)
  {
    forall i :: 0 <= i < |s| ==> IsWs(s[i])
  }

  /** `s.trim() === ""` holds exactly when every character of s is whitespace. */
  lemma TrimIsEmptyIffBlank(s: string)
    ensures Trim(s) == "" <==> Blank(s)
  {
    var t := TrimStart(s);
    if Trim(s) == "" {
      forall i | 0 <= i < |s|
        ensures IsWs(s[i])
      {
        if i >= |s| - |t| {
          assert s[i] == t[i - (|s| - |t|)];
        }
      }
    }
  }

  /** `toLowerCase` on ASCII letters; every other character is kept. */
  function LowerChar(c: char): char
  {
    if 'A' <= c <= 'Z' then (c as int + 32) as char else c
  }

  /** s is one of the sixteen spellings of "none" in upper and lower case. */
  predicate SpellsNone(s: string)
  {
    |s| == 4 && (s[0] == 'n' || s[0] == 'N') && (s[1] == 'o' || s[1] == 'O') &&
    (s[2] == 'n' || s[2] == 'N') && (s[3] == 'e' || s[3] == 'E')
  }

  /** `s.toLowerCase()`, character by character. The pass only compares the
      result with "none", which it equals for exactly the sixteen spellings of
      "none" in upper and lower case. */
  function Lower(s: string): (r: string)
    ensures r == "none" <==> SpellsNone(s)
  {
    var r := seq(|s|, i requires 0 <= i < |s| => LowerChar(s[i]));
    assert r == "none" ==>
      r[0] == LowerChar(s[0]) == 'n' && r[1] == LowerChar(s[1]) == 'o' &&
      r[2] == LowerChar(s[2]) == 'n' && r[3] == LowerChar(s[3]) == 'e';
    r
  }

  /** The first form counts as empty: it is absent or the empty string, is
      whitespace only, or lower-cases to "none". */
  predicate IsEmptyish(msgstr: seq<string>)
  {
    |msgstr| == 0 || msgstr[0] == "" || Trim(msgstr[0]) == "" || Lower(msgstr[0]) == "none"
  }

  // ---------------------------------------------------------------------------
  // The pass

  /** What the pass did with one entry. */
  datatype Action = SkippedHeader | RolledBack | Kept

  datatype Step = Step(entry: Entry, action: Action)

  /** The rollback policy applied to one entry. */
  function RollbackEntry(e: Entry, backup: map<string, string>): (r: Step)
    ensures r.entry.context == e.context && r.entry.msgid == e.msgid
    ensures IsHeaderEntry(e.msgid) <==> r.action == SkippedHeader
    ensures r.action == RolledBack <==>
      !IsHeaderEntry(e.msgid) && IsEmptyish(e.msgstr) && e.msgid in backup
    ensures r.action == RolledBack ==> r.entry.msgstr == [backup[e.msgid]]
    ensures r.action != RolledBack ==> r.entry == e
  {
    if IsHeaderEntry(e.msgid) then
      Step(e, SkippedHeader)
    else if IsEmptyish(e.msgstr) && e.msgid in backup then
      Step(e.(msgstr := [backup[e.msgid]]), RolledBack)
    else
      Step(e, Kept)
  }

  /** The target catalog after the pass. */
  function RolledBackCatalog(es: seq<Entry>, backup: map<string, string>): seq<Entry>
  {
    seq(|es|, i requires 0 <= i < |es| => RollbackEntry(es[i], backup).entry)
  }

  /** The action the pass takes on each entry, in order. */
  function Actions(es: seq<Entry>, backup: map<string, string>): seq<Action>
  {
    seq(|es|, i requires 0 <= i < |es| => RollbackEntry(es[i], backup).action)
  }

  /** The counters printed in the summary. */
  datatype RollbackReport = RollbackReport(totalEntries: nat, skippedCount: nat, rolledBackCount: nat)

  function RollbackReportOf(es: seq<Entry>, backup: map<string, string>): RollbackReport
  {
    var acts := Actions(es, backup);
    RollbackReport(NonHeaderCount(es), Count(acts, SkippedHeader), Count(acts, RolledBack))
  }

  /** The body of the rollback loop: the policy applied in place to the entry
      at i. Reports which counter the entry raises. */
  method RollbackItem(cat: array<Entry>, i: nat, backup: map<string, string>) returns (action: Action)
    requires i < cat.Length
    modifies cat
    ensures cat[i] == RollbackEntry(old(cat[i]), backup).entry
    ensures forall k :: 0 <= k < cat.Length && k != i ==> cat[k] == old(cat[k])
    ensures action == RollbackEntry(old(cat[i]), backup).action
  {
    var item := cat[i];
    if IsHeaderEntry(item.msgid) {
      return SkippedHeader;
    }
    action := Kept;
    if IsEmptyish(item.msgstr) {
      if item.msgid in backup {
        var backupValue := backup[item.msgid];
        cat[i] := item.(msgstr := [backupValue]);
        action := RolledBack;
      }
    }
  }

  /** The rollback loop: walk the catalog once, restoring emptyish entries
      from the backup lookup in place and raising the counters. */
  method ProcessRollback(cat: array<Entry>, backup: map<string, string>) returns (report: RollbackReport)
    modifies cat
    ensures cat[..] == RolledBackCatalog(old(cat[..]), backup)
    ensures report == RollbackReportOf(old(cat[..]), backup)
  {
    ghost var orig := cat[..];
    ghost var target, acts := RolledBackCatalog(orig, backup), Actions(orig, backup);
    var rolledBackCount, skippedCount, totalEntries := 0, 0, 0;
    for i := 0 to cat.Length
      invariant forall k :: 0 <= k < i ==> cat[k] == target[k]
      invariant forall k :: i <= k < cat.Length ==> cat[k] == orig[k]
      invariant skippedCount == Count(acts[..i], SkippedHeader)
      invariant rolledBackCount == Count(acts[..i], RolledBack)
      invariant totalEntries == NonHeaderCount(orig[..i])
    {
      CountStep(acts, i, SkippedHeader);
      CountStep(acts, i, RolledBack);
      NonHeaderCountStep(orig, i);
      var action := RollbackItem(cat, i, backup);
      if action == SkippedHeader {
        skippedCount := skippedCount + 1;
      } else {
        totalEntries := totalEntries + 1;
        if action == RolledBack {
          rolledBackCount := rolledBackCount + 1;
        }
      }
    }
    assert orig[..cat.Length] == orig;
    assert acts[..cat.Length] == acts;
    report := RollbackReport(totalEntries, skippedCount, rolledBackCount);
  }

  /** The whole rollback run on parsed catalogs: build the backup lookup, then
      restore the target from it. */
  method RunRollback(target: array<Entry>, backupCatalog: seq<Entry>) returns (report: RollbackReport)
    modifies target
    ensures target[..] == RolledBackCatalog(old(target[..]), LookupOf(backupCatalog))
    ensures report == RollbackReportOf(old(target[..]), LookupOf(backupCatalog))
  {
    var backupTranslations := BuildLookup(backupCatalog);
    report := ProcessRollback(target, backupTranslations);
  }

  // ---------------------------------------------------------------------------
  // Properties of the pass

  /** The only change is a replaced msgstr: keys, order and header entries
      stay as they were. */
  lemma RollbackKeepsKeysAndHeaders(es: seq<Entry>, backup: map<string, string>)
    ensures Keys(RolledBackCatalog(es, backup)) == Keys(es)
    ensures forall i :: 0 <= i < |es| && IsHeaderEntry(es[i].msgid) ==> RolledBackCatalog(es, backup)[i] == es[i]
  {
    var out := RolledBackCatalog(es, backup);
    forall i | 0 <= i < |es|
      ensures Keys(out)[i] == Keys(es)[i]
    {
      assert out[i] == RollbackEntry(es[i], backup).entry;
    }
  }

  /** An entry whose first form is real text is left alone, whatever the
      backup holds for it. */
  lemma RealTextIsKept(es: seq<Entry>, backup: map<string, string>, i: nat)
    requires i < |es| && |es[i].msgstr| > 0
    requires !Blank(es[i].msgstr[0]) && !SpellsNone(es[i].msgstr[0])
    ensures RolledBackCatalog(es, backup)[i] == es[i]
  {
    EmptyishIff(es[i].msgstr);
  }

  /** What "emptyish" means character by character: the first form is
      absent, is made of whitespace only (the empty string included), or is
      "none" in any mix of upper and lower case. */
  lemma EmptyishIff(msgstr: seq<string>)
    ensures IsEmptyish(msgstr) <==> |msgstr| == 0 || Blank(msgstr[0]) || SpellsNone(msgstr[0])
  {
    if |msgstr| > 0 {
      TrimIsEmptyIffBlank(msgstr[0]);
    }
  }

  /** An emptyish entry gets the backup value when the backup has one for its
      msgid, and otherwise keeps exactly what it had. */
  lemma EmptyishEntryRestored(es: seq<Entry>, backup: map<string, string>, i: nat)
    requires i < |es| && !IsHeaderEntry(es[i].msgid) && IsEmptyish(es[i].msgstr)
    ensures es[i].msgid in backup ==> RolledBackCatalog(es, backup)[i].msgstr == [backup[es[i].msgid]]
    ensures es[i].msgid !in backup ==> RolledBackCatalog(es, backup)[i] == es[i]
  {
  }

  /** Cutting the last entry off the catalog cuts it off the pass's result
      and its action list. */
  lemma RollbackPrefix(es: seq<Entry>, backup: map<string, string>)
    requires |es| > 0
    ensures RolledBackCatalog(es[..|es| - 1], backup) == RolledBackCatalog(es, backup)[..|es| - 1]
    ensures Actions(es[..|es| - 1], backup) == Actions(es, backup)[..|es| - 1]
  {
  }

  /** The non-header entries are exactly those rolled back or kept. */
  lemma {:induction false} CountActionsSplit(es: seq<Entry>, backup: map<string, string>)
    ensures var acts := Actions(es, backup);
      Count(acts, SkippedHeader) + NonHeaderCount(es) == |es| &&
      Count(acts, RolledBack) + Count(acts, Kept) == NonHeaderCount(es)
  {
    if |es| > 0 {
      RollbackPrefix(es, backup);
      CountActionsSplit(es[..|es| - 1], backup);
    }
  }

  /** The counters: headers are skipped and the rest are the total, every
      changed entry was counted as rolled back, and no more entries were
      rolled back than the total. A restore that writes back the value the
      entry already had is counted without changing anything. */
  lemma {:induction false} RollbackReportBounds(es: seq<Entry>, backup: map<string, string>)
    ensures var r := RollbackReportOf(es, backup);
      r.totalEntries + r.skippedCount == |es| &&
      ChangedCount(es, RolledBackCatalog(es, backup)) <= r.rolledBackCount <= r.totalEntries
  {
    CountActionsSplit(es, backup);
    ChangedAtMostRolledBack(es, backup);
  }

  lemma {:induction false} ChangedAtMostRolledBack(es: seq<Entry>, backup: map<string, string>)
    ensures ChangedCount(es, RolledBackCatalog(es, backup)) <= Count(Actions(es, backup), RolledBack)
  {
    if |es| > 0 {
      RollbackPrefix(es, backup);
      ChangedAtMostRolledBack(es[..|es| - 1], backup);
    }
  }

  /** Rolling back twice with the same backup gives the catalog one rollback
      gives. */
  lemma RollbackIdempotent(es: seq<Entry>, backup: map<string, string>)
    ensures RolledBackCatalog(RolledBackCatalog(es, backup), backup) == RolledBackCatalog(es, backup)
  {
    var once := RolledBackCatalog(es, backup);
    var twice := RolledBackCatalog(once, backup);
    forall i | 0 <= i < |es|
      ensures twice[i] == once[i]
    {
      assert once[i] == RollbackEntry(es[i], backup).entry;
    }
  }
}
