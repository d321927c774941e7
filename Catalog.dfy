/**
 * The parsed PO catalog as both reconciliation passes see it, the header test
 * they share, and the msgid lookup each pass builds from a second catalog.
 *
 * A parsed catalog is a table context -> (msgid -> item) with item
 * {msgid, msgstr}. Both passes walk it with two nested loops in iteration
 * order and never add, remove or reorder entries, so the model flattens the
 * table into the sequence of its entries in that order, each entry carrying
 * the context it is filed under.
 */
module Catalog {

  datatype Option<+T> = None | Some(value: T)

  /** One translation item together with its place in the table. msgid is the
      inner key the passes read; msgstr holds the translated forms, index 0
      being the singular form both passes use. */
  datatype Entry = Entry(context: string, msgid: string, msgstr: seq<string>)

  /** `msgstr[0]`, which is undefined when the array is empty. */
  function First(msgstr: seq<string>): Option<string>
  {
    if |msgstr| == 0 then None else Some(msgstr[0])
  }

  /** The (context, msgid) key of every entry, in order. */
  function Keys(es: seq<Entry>): seq<(string, string)>
  {
    seq(|es|, i requires 0 <= i < |es| => (es[i].context, es[i].msgid))
  }

  // ---------------------------------------------------------------------------
  // Substring search (String.prototype.includes) and the header test

  /** sub appears in s starting at offset i. */
  predicate OccursAt(s: string, sub: string, i: nat)
  {
    i + |sub| <= |s| && s[i..i + |sub|] == sub
  }

  /** `s.includes(sub)`. */
  function Contains(s: string, sub: string): bool
    decreases |s|
  {
    if |sub| <= |s| && s[..|sub|] == sub then true
    else if |s| == 0 then false
    else Contains(s[1..], sub)
  }

  /** `includes` holds exactly when sub occurs somewhere in s. */
  lemma {:induction false} ContainsIff(s: string, sub: string)
    ensures Contains(s, sub) <==> exists i: nat :: OccursAt(s, sub, i)
    decreases |s|
  {
    if |sub| <= |s| && s[..|sub|] == sub {
      assert OccursAt(s, sub, 0);
    } else if |s| > 0 {
      ContainsIff(s[1..], sub);
      if Contains(s[1..], sub) {
        var j: nat :| OccursAt(s[1..], sub, j);
        assert s[1..][j..j + |sub|] == s[j + 1..j + 1 + |sub|];
        assert OccursAt(s, sub, j + 1);
      }
      if i: nat :| OccursAt(s, sub, i) {
        assert i != 0;
        assert s[1..][i - 1..i - 1 + |sub|] == s[i..i + |sub|];
        assert OccursAt(s[1..], sub, i - 1);
      }
    }
  }

  const ProjectIdMarker := "Project-Id-Version"
  const BugsToMarker := "Report-Msgid-Bugs-To"

  /** A header entry carries file metadata rather than a translatable string. */
  predicate IsHeaderEntry(msgid: string)
  {
    msgid == "" || Contains(msgid, ProjectIdMarker) || Contains(msgid, BugsToMarker)
  }

  /** A msgid is a header exactly when it is empty or mentions one of the two
      metadata markers somewhere. */
  lemma HeaderIff(msgid: string)
    ensures IsHeaderEntry(msgid) <==>
      msgid == "" ||
      (exists i: nat :: OccursAt(msgid, ProjectIdMarker, i)) ||
      (exists i: nat :: OccursAt(msgid, BugsToMarker, i))
  {
    ContainsIff(msgid, ProjectIdMarker);
    ContainsIff(msgid, BugsToMarker);
  }

  /** A marker anywhere inside a msgid makes it a header, whatever surrounds it. */
  lemma MarkerMakesHeader(before: string, marker: string, after: string)
    requires marker == ProjectIdMarker || marker == BugsToMarker
    ensures IsHeaderEntry(before + marker + after)
  {
    var m := before + marker + after;
    assert m[|before|..|before| + |marker|] == marker;
    assert OccursAt(m, marker, |before|);
    HeaderIff(m);
  }

  /** A msgid shorter than both markers is a header only when it is empty. */
  lemma ShortMsgidIsHeaderOnlyIfEmpty(msgid: string)
    requires |msgid| < |ProjectIdMarker|
    ensures IsHeaderEntry(msgid) <==> msgid == ""
  {
    HeaderIff(msgid);
    if i: nat :| OccursAt(msgid, ProjectIdMarker, i) {
      assert false;
    }
    if i: nat :| OccursAt(msgid, BugsToMarker, i) {
      assert false;
    }
  }

  /** How many entries of es are not headers: the passes' totalEntries. */
  function NonHeaderCount(es: seq<Entry>): nat
  {
    if |es| == 0 then 0
    else NonHeaderCount(es[..|es| - 1]) + (if IsHeaderEntry(es[|es| - 1].msgid) then 0 else 1)
  }

  /** Counting one entry more. */
  lemma NonHeaderCountStep(es: seq<Entry>, i: nat)
    requires i < |es|
    ensures NonHeaderCount(es[..i + 1]) == NonHeaderCount(es[..i]) + (if IsHeaderEntry(es[i].msgid) then 0 else 1)
  {
    assert es[..i + 1][..i] == es[..i];
  }

  /** How many positions hold different entries in two catalogs of one length. */
  function ChangedCount(before: seq<Entry>, after: seq<Entry>): nat
    requires |before| == |after|
  {
    if |before| == 0 then 0
    else
      ChangedCount(before[..|before| - 1], after[..|after| - 1]) +
      (if before[|before| - 1] != after[|after| - 1] then 1 else 0)
  }

  /** How many elements of xs equal a. */
  function Count<A(==)>(xs: seq<A>, a: A): nat
  {
    if |xs| == 0 then 0
    else Count(xs[..|xs| - 1], a) + (if xs[|xs| - 1] == a then 1 else 0)
  }

  /** Counting one element more. */
  lemma CountStep<A>(xs: seq<A>, i: nat, a: A)
    requires i < |xs|
    ensures Count(xs[..i + 1], a) == Count(xs[..i], a) + (if xs[i] == a then 1 else 0)
  {
    assert xs[..i + 1][..i] == xs[..i];
  }

  /** A value that never occurs is counted zero times. */
  lemma {:induction false} CountAbsent<A>(xs: seq<A>, a: A)
    requires forall k :: 0 <= k < |xs| ==> xs[k] != a
    ensures Count(xs, a) == 0
  {
    if |xs| > 0 {
      CountAbsent(xs[..|xs| - 1], a);
    }
  }

  // ---------------------------------------------------------------------------
  // The msgid lookup built from a reference (or backup) catalog

  /** An entry enters the lookup when `msgstr[0]` is a non-empty string and
      its msgid is not a header. */
  predicate Contributes(e: Entry)
  {
    |e.msgstr| > 0 && e.msgstr[0] != "" && !IsHeaderEntry(e.msgid)
  }

  /** The lookup after `Map.set` has been applied for every contributing entry
      of es in order; the context is ignored. */
  function LookupOf(es: seq<Entry>): map<string, string>
  {
    if |es| == 0 then map[]
    else
      var m := LookupOf(es[..|es| - 1]);
      var e := es[|es| - 1];
      if Contributes(e) then m[e.msgid := e.msgstr[0]] else m
  }

  /** The loop that fills the lookup map entry by entry. */
  method BuildLookup(es: seq<Entry>) returns (m: map<string, string>)
    ensures m == LookupOf(es)
  {
    m := map[];
    for i := 0 to |es|
      invariant m == LookupOf(es[..i])
    {
      assert es[..i + 1][..i] == es[..i];
      var item := es[i];
      if |item.msgstr| > 0 && item.msgstr[0] != "" && !IsHeaderEntry(item.msgid) {
        m := m[item.msgid := item.msgstr[0]];
      }
    }
    assert es[..|es|] == es;
  }

  /** A msgid is a key of the lookup exactly when some contributing entry
      carries it. */
  lemma {:induction false} LookupKeys(es: seq<Entry>, k: string)
    ensures k in LookupOf(es) <==>
      exists i :: 0 <= i < |es| && Contributes(es[i]) && es[i].msgid == k
  {
    if |es| > 0 {
      var init := es[..|es| - 1];
      LookupKeys(init, k);
      if k in LookupOf(init) {
        var i :| 0 <= i < |init| && Contributes(init[i]) && init[i].msgid == k;
        assert es[i] == init[i];
      }
      if i :| 0 <= i < |es| && Contributes(es[i]) && es[i].msgid == k {
        if i < |es| - 1 {
          assert init[i] == es[i];
        }
      }
    }
  }

  /** Every value of the lookup is non-empty and keyed by a non-header msgid. */
  lemma {:induction false} LookupValuesUsable(es: seq<Entry>, k: string)
    requires k in LookupOf(es)
    ensures !IsHeaderEntry(k) && LookupOf(es)[k] != ""
  {
    var init := es[..|es| - 1];
    var e := es[|es| - 1];
    if !(Contributes(e) && e.msgid == k) {
      LookupValuesUsable(init, k);
    }
  }

  /** When several contributing entries share a msgid, the value is that of
      the last one: the entry at i wins when no later contributing entry
      carries the same msgid. */
  lemma {:induction false} LookupLastWins(es: seq<Entry>, i: nat)
    requires i < |es| && Contributes(es[i])
    requires forall j :: i < j < |es| ==> !(Contributes(es[j]) && es[j].msgid == es[i].msgid)
    ensures es[i].msgid in LookupOf(es) && LookupOf(es)[es[i].msgid] == es[i].msgstr[0]
  {
    if i < |es| - 1 {
      var init := es[..|es| - 1];
      assert init[i] == es[i];
      forall j | i < j < |init|
        ensures !(Contributes(init[j]) && init[j].msgid == init[i].msgid)
      {
        assert init[j] == es[j];
      }
      LookupLastWins(init, i);
    }
  }
}
