/**
 * The sync pass: every non-header entry of the target catalog takes its
 * English value from the reference catalog when one is usable, and otherwise
 * has its text machine-translated to English when it still contains non-ASCII
 * characters.
 */
module Sync {
  import opened Catalog

  /** The regular expression test `/[^\x00-\x7F]/`: some character lies
      outside 7-bit ASCII. JavaScript tests UTF-16 code units, but every code
      unit of a character above 0x7F is itself above 0x7F, so testing
      characters gives the same answer. */
  function ContainsNonEnglish(text: string): (r: bool)
    ensures r <==> exists i :: 0 <= i < |text| && text[i] as int > 0x7F
  {
    if |text| == 0 then false
    else
      var r := ContainsNonEnglish(text[1..]);
      assert r ==> exists i :: 0 <= i < |text| && text[i] as int > 0x7F by {
        if r {
          var j :| 0 <= j < |text[1..]| && text[1..][j] as int > 0x7F;
          assert text[j + 1] == text[1..][j];
        }
      }
      assert (exists i :: 1 <= i < |text| && text[i] as int > 0x7F) ==> r by {
        if i :| 1 <= i < |text| && text[i] as int > 0x7F {
          assert text[1..][i - 1] == text[i];
        }
      }
      text[0] as int > 0x7F || r
  }

  /** The translation service, called with the text to translate (source
      language detected, target English): Some(reply) on success, None when
      the call throws. */
  type Oracle = string -> Option<string>

  /** `translateText`: the service's reply, or the input itself when the call
      fails. */
  function TranslateText(translate: Oracle, text: string): (r: string)
    ensures translate(text).None? ==> r == text
    ensures translate(text).Some? ==> r == translate(text).value
  {
    match translate(text)
    case Some(reply) => reply
    case None => text
  }

  /** What the pass did with one entry, and so which counter it raised. */
  datatype Action = SkippedHeader | UpdatedFromEnglish | Translated | Unchanged

  datatype Step = Step(entry: Entry, action: Action)

  /** The lookup holds an English value for msgid that is not the sentinel
      "none" (compared exactly, case included). */
  predicate HasUsableEnglish(en: map<string, string>, msgid: string)
  {
    msgid in en && en[msgid] != "none"
  }

  /** `containsNonEnglish(item.msgstr[0])`. An absent first form reaches the
      regular expression as the ASCII text "undefined", so it never matches. */
  predicate NeedsTranslation(msgstr: seq<string>)
  {
    |msgstr| > 0 && ContainsNonEnglish(msgstr[0])
  }

  /** The decision list applied to one entry. */
  function SyncEntry(e: Entry, en: map<string, string>, translate: Oracle): (r: Step)
    ensures r.entry.context == e.context && r.entry.msgid == e.msgid
    ensures IsHeaderEntry(e.msgid) <==> r.action == SkippedHeader
    ensures r.action == SkippedHeader || r.action == Unchanged ==> r.entry == e
    ensures r.action == UpdatedFromEnglish <==>
      !IsHeaderEntry(e.msgid) && HasUsableEnglish(en, e.msgid) && First(e.msgstr) != Some(en[e.msgid])
    ensures !IsHeaderEntry(e.msgid) && HasUsableEnglish(en, e.msgid) ==>
      First(r.entry.msgstr) == Some(en[e.msgid]) &&
      (r.action == UpdatedFromEnglish ==> r.entry.msgstr == [en[e.msgid]])
    ensures r.action == Translated <==>
      !IsHeaderEntry(e.msgid) && !HasUsableEnglish(en, e.msgid) && NeedsTranslation(e.msgstr) &&
      TranslateText(translate, e.msgstr[0]) != e.msgstr[0]
    ensures r.action == Translated ==> r.entry.msgstr == [TranslateText(translate, e.msgstr[0])]
    ensures r.entry != e <==> r.action == UpdatedFromEnglish || r.action == Translated
  {
    if IsHeaderEntry(e.msgid) then
      Step(e, SkippedHeader)
    else if HasUsableEnglish(en, e.msgid) then
      var english := en[e.msgid];
      if First(e.msgstr) != Some(english) then Step(e.(msgstr := [english]), UpdatedFromEnglish)
      else Step(e, Unchanged)
    else if NeedsTranslation(e.msgstr) then
      var translated := TranslateText(translate, e.msgstr[0]);
      if translated != e.msgstr[0] then Step(e.(msgstr := [translated]), Translated)
      else Step(e, Unchanged)
    else
      Step(e, Unchanged)
  }

  /** The target catalog after the pass. */
  function Synced(es: seq<Entry>, en: map<string, string>, translate: Oracle): seq<Entry>
  {
    seq(|es|, i requires 0 <= i < |es| => SyncEntry(es[i], en, translate).entry)
  }

  /** The action the pass takes on each entry, in order. */
  function Actions(es: seq<Entry>, en: map<string, string>, translate: Oracle): seq<Action>
  {
    seq(|es|, i requires 0 <= i < |es| => SyncEntry(es[i], en, translate).action)
  }

  /** The counters printed in the summary. */
  datatype SyncReport = SyncReport(totalEntries: nat, skippedCount: nat, updatedCount: nat, translatedCount: nat)

  function SyncReportOf(es: seq<Entry>, en: map<string, string>, translate: Oracle): SyncReport
  {
    var acts := Actions(es, en, translate);
    SyncReport(NonHeaderCount(es), Count(acts, SkippedHeader), Count(acts, UpdatedFromEnglish), Count(acts, Translated))
  }

  /** The first loop of `processTranslations`: the number of non-header
      entries, printed as the total to process. */
  method CountEntries(cat: array<Entry>) returns (totalEntries: nat)
    ensures totalEntries == NonHeaderCount(cat[..])
  {
    totalEntries := 0;
    for i := 0 to cat.Length
      invariant totalEntries == NonHeaderCount(cat[..i])
    {
      NonHeaderCountStep(cat[..], i);
      assert cat[..][..i] == cat[..i] && cat[..][..i + 1] == cat[..i + 1];
      if !IsHeaderEntry(cat[i].msgid) {
        totalEntries := totalEntries + 1;
      }
    }
    assert cat[..cat.Length] == cat[..];
  }

  /** The body of the second loop of `processTranslations`: the decision
      list applied in place to the entry at i. Reports which counter the
      entry raises. */
  method SyncItem(cat: array<Entry>, i: nat, en: map<string, string>, translate: Oracle)
    returns (action: Action)
    requires i < cat.Length
    modifies cat
    ensures cat[i] == SyncEntry(old(cat[i]), en, translate).entry
    ensures forall k :: 0 <= k < cat.Length && k != i ==> cat[k] == old(cat[k])
    ensures action == SyncEntry(old(cat[i]), en, translate).action
  {
    var item := cat[i];
    action := Unchanged;
    if IsHeaderEntry(item.msgid) {
      action := SkippedHeader;
    } else if item.msgid in en && en[item.msgid] != "none" {
      var englishTranslation := en[item.msgid];
      if First(item.msgstr) != Some(englishTranslation) {
        cat[i] := item.(msgstr := [englishTranslation]);
        action := UpdatedFromEnglish;
      }
    } else if |item.msgstr| > 0 && ContainsNonEnglish(item.msgstr[0]) {
      var translatedText := TranslateText(translate, item.msgstr[0]);
      if translatedText != item.msgstr[0] {
        cat[i] := item.(msgstr := [translatedText]);
        action := Translated;
      }
    }
  }

  /** `processTranslations`: count the non-header entries, then walk the
      catalog once, rewriting entries in place and raising the counters. */
  method ProcessTranslations(cat: array<Entry>, en: map<string, string>, translate: Oracle)
    returns (report: SyncReport)
    modifies cat
    ensures cat[..] == Synced(old(cat[..]), en, translate)
    ensures report == SyncReportOf(old(cat[..]), en, translate)
  {
    ghost var orig := cat[..];
    ghost var target, acts := Synced(orig, en, translate), Actions(orig, en, translate);
    var totalEntries := CountEntries(cat);

    var updatedCount, translatedCount, skippedCount := 0, 0, 0;
    for i := 0 to cat.Length
      invariant forall k :: 0 <= k < i ==> cat[k] == target[k]
      invariant forall k :: i <= k < cat.Length ==> cat[k] == orig[k]
      invariant skippedCount == Count(acts[..i], SkippedHeader)
      invariant updatedCount == Count(acts[..i], UpdatedFromEnglish)
      invariant translatedCount == Count(acts[..i], Translated)
    {
      CountStep(acts, i, SkippedHeader);
      CountStep(acts, i, UpdatedFromEnglish);
      CountStep(acts, i, Translated);
      var action := SyncItem(cat, i, en, translate);
      if action == SkippedHeader {
        skippedCount := skippedCount + 1;
      } else if action == UpdatedFromEnglish {
        updatedCount := updatedCount + 1;
      } else if action == Translated {
        translatedCount := translatedCount + 1;
      }
    }
    assert acts[..cat.Length] == acts;
    report := SyncReport(totalEntries, skippedCount, updatedCount, translatedCount);
  }

  /** The whole sync run on parsed catalogs: build the English lookup from the
      reference catalog, then reconcile the target against it. */
  method RunSync(reference: seq<Entry>, target: array<Entry>, translate: Oracle)
    returns (report: SyncReport)
    modifies target
    ensures target[..] == Synced(old(target[..]), LookupOf(reference), translate)
    ensures report == SyncReportOf(old(target[..]), LookupOf(reference), translate)
  {
    var enTranslations := BuildLookup(reference);
    report := ProcessTranslations(target, enTranslations, translate);
  }

  // ---------------------------------------------------------------------------
  // Properties of the pass

  /** The pass changes no (context, msgid) key and no header entry. */
  lemma SyncKeepsKeysAndHeaders(es: seq<Entry>, en: map<string, string>, translate: Oracle)
    ensures Keys(Synced(es, en, translate)) == Keys(es)
    ensures forall i :: 0 <= i < |es| && IsHeaderEntry(es[i].msgid) ==> Synced(es, en, translate)[i] == es[i]
  {
    var out := Synced(es, en, translate);
    forall i | 0 <= i < |es|
      ensures Keys(out)[i] == Keys(es)[i]
    {
      assert out[i] == SyncEntry(es[i], en, translate).entry;
    }
  }

  /** After the pass every non-header entry with a usable English value has
      that value as its first form, and its whole msgstr is exactly that
      value whenever the pass changed it. */
  lemma SyncCopiesEnglish(es: seq<Entry>, en: map<string, string>, translate: Oracle, i: nat)
    requires i < |es| && !IsHeaderEntry(es[i].msgid) && HasUsableEnglish(en, es[i].msgid)
    ensures First(Synced(es, en, translate)[i].msgstr) == Some(en[es[i].msgid])
    ensures Synced(es, en, translate)[i] != es[i] ==> Synced(es, en, translate)[i].msgstr == [en[es[i].msgid]]
  {
  }

  /** The sentinel English value "none" is treated as if the msgid had no
      English value at all: the entry goes on to the translation branch. */
  lemma SentinelIsNotCopied(e: Entry, en: map<string, string>, translate: Oracle)
    requires e.msgid in en && en[e.msgid] == "none"
    ensures SyncEntry(e, en, translate) == SyncEntry(e, en - {e.msgid}, translate)
  {
  }

  /** An entry with no usable English value stays exactly as it was when its
      first form is absent or all ASCII, or when the service fails or replies
      with the text it was given. */
  lemma UntranslatableLeftAlone(e: Entry, en: map<string, string>, translate: Oracle)
    requires !IsHeaderEntry(e.msgid) && !HasUsableEnglish(en, e.msgid)
    requires !NeedsTranslation(e.msgstr) ||
             translate(e.msgstr[0]).None? || translate(e.msgstr[0]) == Some(e.msgstr[0])
    ensures SyncEntry(e, en, translate) == Step(e, Unchanged)
  {
  }

  /** Cutting the last entry off the catalog cuts it off the pass's result
      and its action list. */
  lemma SyncPrefix(es: seq<Entry>, en: map<string, string>, translate: Oracle)
    requires |es| > 0
    ensures Synced(es[..|es| - 1], en, translate) == Synced(es, en, translate)[..|es| - 1]
    ensures Actions(es[..|es| - 1], en, translate) == Actions(es, en, translate)[..|es| - 1]
  {
  }

  /** Every action is one of the four. */
  lemma {:induction false} CountActionsSplit(acts: seq<Action>)
    ensures Count(acts, SkippedHeader) + Count(acts, UpdatedFromEnglish) +
            Count(acts, Translated) + Count(acts, Unchanged) == |acts|
  {
    if |acts| > 0 {
      var init := acts[..|acts| - 1];
      CountActionsSplit(init);
      assert Count(acts, SkippedHeader) == Count(init, SkippedHeader) + (if acts[|acts| - 1] == SkippedHeader then 1 else 0);
      assert Count(acts, UpdatedFromEnglish) == Count(init, UpdatedFromEnglish) + (if acts[|acts| - 1] == UpdatedFromEnglish then 1 else 0);
      assert Count(acts, Translated) == Count(init, Translated) + (if acts[|acts| - 1] == Translated then 1 else 0);
      assert Count(acts, Unchanged) == Count(init, Unchanged) + (if acts[|acts| - 1] == Unchanged then 1 else 0);
    }
  }

  /** Exactly the header entries are skipped. */
  lemma {:induction false} SkippedAreHeaders(es: seq<Entry>, en: map<string, string>, translate: Oracle)
    ensures Count(Actions(es, en, translate), SkippedHeader) + NonHeaderCount(es) == |es|
  {
    if |es| > 0 {
      var n, acts := |es| - 1, Actions(es, en, translate);
      SyncPrefix(es, en, translate);
      SkippedAreHeaders(es[..n], en, translate);
      CountStep(acts, n, SkippedHeader);
      NonHeaderCountStep(es, n);
      assert acts[..n + 1] == acts && es[..n + 1] == es;
    }
  }

  /** The counters: totalEntries counts the non-header entries, headers are
      counted as skipped only, and the two change counters together never
      exceed the total. */
  lemma SyncReportBounds(es: seq<Entry>, en: map<string, string>, translate: Oracle)
    ensures var r := SyncReportOf(es, en, translate);
      r.totalEntries + r.skippedCount == |es| &&
      r.updatedCount + r.translatedCount <= r.totalEntries
  {
    CountActionsSplit(Actions(es, en, translate));
    SkippedAreHeaders(es, en, translate);
  }

  /** updatedCount and translatedCount together count exactly the entries
      the pass changed. */
  lemma {:induction false} SyncCountsChanges(es: seq<Entry>, en: map<string, string>, translate: Oracle)
    ensures var r := SyncReportOf(es, en, translate);
      r.updatedCount + r.translatedCount == ChangedCount(es, Synced(es, en, translate))
  {
    if |es| > 0 {
      SyncPrefix(es, en, translate);
      SyncCountsChanges(es[..|es| - 1], en, translate);
    }
  }

  /** A second pass against the same English lookup updates nothing, whatever
      the translation service replies in either pass. */
  lemma SecondSyncUpdatesNothing(es: seq<Entry>, en: map<string, string>,
                                 translate: Oracle, translateAgain: Oracle)
    ensures SyncReportOf(Synced(es, en, translate), en, translateAgain).updatedCount == 0
  {
    var out := Synced(es, en, translate);
    var acts := Actions(out, en, translateAgain);
    forall k | 0 <= k < |acts|
      ensures acts[k] != UpdatedFromEnglish
    {
      assert out[k] == SyncEntry(es[k], en, translate).entry;
    }
    CountAbsent(acts, UpdatedFromEnglish);
  }

  /** A three-entry catalog: a header, an entry whose English value differs
      from its text, and an untranslated entry with no English value. The
      header is untouched, the second entry takes the English value, and the
      third is translated or left as it was, depending on the service. */
  lemma ThreeEntryExample(translate: Oracle)
    ensures var out := Synced(ExampleCatalog, ExampleEnglish, translate);
            out[0] == ExampleCatalog[0] && out[1].msgstr == ["Save"] &&
            (out[2] == ExampleCatalog[2] ||
             out[2].msgstr == [TranslateText(translate, ExampleCatalog[2].msgstr[0])])
    ensures var r := SyncReportOf(ExampleCatalog, ExampleEnglish, translate);
            r.totalEntries == 2 && r.skippedCount == 1 && r.updatedCount == 1 && r.translatedCount <= 1
  {
    var es, en := ExampleCatalog, ExampleEnglish;
    ShortMsgidIsHeaderOnlyIfEmpty("Save");
    ShortMsgidIsHeaderOnlyIfEmpty("Draft");
    assert es[2].msgstr[0][0] as int > 0x7F;
    var s0, s1, s2 := SyncEntry(es[0], en, translate), SyncEntry(es[1], en, translate), SyncEntry(es[2], en, translate);
    assert s0.action == SkippedHeader;
    assert s1 == Step(es[1].(msgstr := ["Save"]), UpdatedFromEnglish);
    assert s2.action == Translated || s2.action == Unchanged;
    assert es[..2][..1] == es[..1];
    assert es[..3] == es;
    assert es[..2] == es[..3][..2];
    assert es[..1][..0] == [];
    assert NonHeaderCount(es[..1]) == 0;
    assert NonHeaderCount(es[..2]) == 1;
    var acts := Actions(es, en, translate);
    assert acts == [SkippedHeader, UpdatedFromEnglish, s2.action];
    assert acts[..2][..1] == [SkippedHeader] && acts[..1][..0] == [];
    assert Count(acts[..1], SkippedHeader) == 1 && Count(acts[..1], UpdatedFromEnglish) == 0;
    assert Count(acts[..1], Translated) == 0;
    assert Count(acts[..2], SkippedHeader) == 1 && Count(acts[..2], UpdatedFromEnglish) == 1;
    assert Count(acts[..2], Translated) == 0;
    assert acts[..3] == acts;
  }

  const ExampleCatalog := [Entry("", "", ["Project-Id-Version: app"]),
                           Entry("", "Save", ["\U{4FDD}\U{5B58}"]),
                           Entry("", "Draft", ["\U{8349}\U{7A3F}"])]

  const ExampleEnglish := map["Save" := "Save"]
}
