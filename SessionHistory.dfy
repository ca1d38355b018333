/** The session log of `useSessionHistory`: completed sessions, newest first, at most
    `MAX_ENTRIES` of them, with today's statistics and the recently used labels.

    The clock, the random part of entry ids and the start of the local day are parameters. */
module SessionHistory {
  import Text
  import Seqs
  import opened Timer

  datatype Entry = Entry(
    id: string,
    sessionType: SessionType,
    labelText: string,  // `label` in the source; `label` is reserved in Dafny
    startedAt: int,
    completedAt: int,
    duration: nat)

  datatype History = History(entries: seq<Entry>, lastCleared: int)

  const MAX_ENTRIES: nat := 100

  /** `recordSession`: the new entry, with the trimmed label and completed `now`, goes in front
      of the previous entries, and the oldest fall off beyond `MAX_ENTRIES`. Returns the new
      history and the entry. */
  function RecordSession(h: History, sessionType: SessionType, tag: string, duration: nat,
                         startedAt: int, id: string, now: int): (r: (History, Entry))
    ensures r.1 == Entry(id, sessionType, Text.Trim(tag, Text.JsWhitespace), startedAt, now, duration)
    ensures |r.0.entries| == if |h.entries| < MAX_ENTRIES then |h.entries| + 1 else MAX_ENTRIES
    ensures r.0.entries[0] == r.1
    ensures r.0.entries[1..] == h.entries[..|r.0.entries| - 1]
    ensures r.0.lastCleared == h.lastCleared
  {
    var entry := Entry(id, sessionType, Text.Trim(tag, Text.JsWhitespace), startedAt, now, duration);
    (h.(entries := Seqs.Take([entry] + h.entries, MAX_ENTRIES)), entry)
  }

  /** `clearHistory`. */
  function ClearHistory(now: int): (h: History)
    ensures h.entries == [] && h.lastCleared == now
  {
    History([], now)
  }

  /** Recording never takes the log beyond `MAX_ENTRIES`, and what was already recorded keeps
      its order behind the new entry. */
  lemma {:induction false} RecordKeepsBound(h: History, sessionType: SessionType, tag: string,
                                            duration: nat, startedAt: int, id: string, now: int)
    requires |h.entries| <= MAX_ENTRIES
    ensures var r := RecordSession(h, sessionType, tag, duration, startedAt, id, now).0;
      |r.entries| <= MAX_ENTRIES && |r.entries| >= 1
      && forall k :: 0 <= k < |r.entries| - 1 ==> r.entries[k + 1] == h.entries[k]
  {
    var r := RecordSession(h, sessionType, tag, duration, startedAt, id, now).0;
    forall k | 0 <= k < |r.entries| - 1 ensures r.entries[k + 1] == h.entries[k] {
      assert r.entries[1..][k] == r.entries[k + 1];
    }
  }

  // ---------------------------------------------------------------------------
  // Today's entries and statistics

  /** `todayEntries`: the entries completed at or after `todayStart`, in their order. */
  function TodayEntries(entries: seq<Entry>, todayStart: int): (r: seq<Entry>)
    ensures |r| <= |entries|
    ensures forall e :: e in r <==> e in entries && e.completedAt >= todayStart
  {
    Seqs.FilterContains(entries, (e: Entry) => e.completedAt >= todayStart);
    Seqs.Filter(entries, (e: Entry) => e.completedAt >= todayStart)
  }

  /** An entry is among today's exactly when it is in the log and completed today. */
  lemma {:induction false} TodayEntriesExact(entries: seq<Entry>, todayStart: int)
    ensures forall e :: e in TodayEntries(entries, todayStart) <==> e in entries && e.completedAt >= todayStart
    ensures forall a, b :: TodayEntries(a + b, todayStart) == TodayEntries(a, todayStart) + TodayEntries(b, todayStart)
  {
    Seqs.FilterContains(entries, (e: Entry) => e.completedAt >= todayStart);
    forall a, b ensures TodayEntries(a + b, todayStart) == TodayEntries(a, todayStart) + TodayEntries(b, todayStart) {
      Seqs.FilterAppend(a, b, (e: Entry) => e.completedAt >= todayStart);
    }
  }

  predicate IsFocusEntry(e: Entry) { e.sessionType == Focus }
  predicate IsBreakEntry(e: Entry) { e.sessionType != Focus }

  /** `e.label || 'Unlabeled'`: only the empty string is falsy. */
  function LabelOf(e: Entry): (l: string)
    ensures l != ""
    ensures e.labelText != "" ==> l == e.labelText
    ensures e.labelText == "" ==> l == "Unlabeled"
  {
    if e.labelText == "" then "Unlabeled" else e.labelText
  }

  function Labels(es: seq<Entry>): (r: seq<string>)
    ensures |r| == |es|
  {
    seq(|es|, k requires 0 <= k < |es| => LabelOf(es[k]))
  }

  /** A session counted under "Unlabeled": one with an empty label, or one labelled
      "Unlabeled" outright, which the label map cannot tell apart. */
  predicate IsUnlabeled(e: Entry) { e.labelText == "" || e.labelText == "Unlabeled" }

  /** The count under "Unlabeled" is the number of sessions with an empty label or that
      label itself. */
  lemma {:induction false} UnlabeledCount(es: seq<Entry>)
    ensures multiset(Labels(es))["Unlabeled"] == |Seqs.Filter(es, IsUnlabeled)|
  {
    if es != [] {
      var init, e := es[..|es| - 1], es[|es| - 1];
      UnlabeledCount(init);
      assert es == init + [e];
      assert Labels(es) == Labels(init) + [LabelOf(e)];
      Seqs.FilterSnoc(init, e, IsUnlabeled);
    }
  }

  /** `reduce((sum, e) => sum + e.duration, 0)`. */
  function TotalDuration(es: seq<Entry>): nat {
    if es == [] then 0 else TotalDuration(es[..|es| - 1]) + es[|es| - 1].duration
  }

  /** `Math.round(seconds / 60)`: the nearest whole number of minutes, a tie rounded up. */
  function RoundedMinutes(seconds: nat): (r: nat)
    ensures r * 60 - 30 <= seconds < r * 60 + 30
  {
    (seconds + 30) / 60
  }

  datatype LabelCount = LabelCount(name: string, count: nat)

  datatype Stats = Stats(
    focusCount: nat,
    breakCount: nat,
    totalFocusMinutes: nat,
    labelBreakdown: seq<LabelCount>)

  /** The label counts in order of first appearance, as `Map` iteration gives them. */
  function Breakdown(labels: seq<string>): (r: seq<LabelCount>)
    ensures |r| == |Seqs.Dedup(labels)|
  {
    var keys := Seqs.Dedup(labels);
    seq(|keys|, k requires 0 <= k < |keys| => LabelCount(keys[k], multiset(labels)[keys[k]]))
  }

  function CountTotal(bd: seq<LabelCount>): nat {
    if bd == [] then 0 else CountTotal(bd[..|bd| - 1]) + bd[|bd| - 1].count
  }

  lemma {:induction false} CountTotalIsSumCounts(keys: seq<string>, m: multiset<string>)
    ensures CountTotal(seq(|keys|, k requires 0 <= k < |keys| => LabelCount(keys[k], m[keys[k]])))
      == Seqs.SumCounts(keys, m)
  {
    if keys != [] {
      var init := keys[..|keys| - 1];
      CountTotalIsSumCounts(init, m);
      var bd := seq(|keys|, k requires 0 <= k < |keys| => LabelCount(keys[k], m[keys[k]]));
      assert bd[..|bd| - 1] == seq(|init|, k requires 0 <= k < |init| => LabelCount(init[k], m[init[k]]));
    }
  }

  /** The breakdown names each label once, never the empty label, and its counts add up to
      the number of labelled sessions. */
  lemma {:induction false} BreakdownProperties(es: seq<Entry>)
    ensures var bd := Breakdown(Labels(es));
      && (forall i, j :: 0 <= i < j < |bd| ==> bd[i].name != bd[j].name)
      && (forall i :: 0 <= i < |bd| ==> bd[i].name != "" && bd[i].count > 0)
      && CountTotal(bd) == |es|
  {
    var labels := Labels(es);
    var keys := Seqs.Dedup(labels);
    var bd := Breakdown(labels);
    forall i | 0 <= i < |bd| ensures bd[i].name != "" && bd[i].count > 0 {
      assert keys[i] in labels;
      var k :| 0 <= k < |labels| && labels[k] == keys[i];
    }
    CountTotalIsSumCounts(keys, multiset(labels));
    Seqs.SumCountsDedup(labels);
  }

  /** The label map as the loop of `todayStats` keeps it: keyed by the labels seen so far,
      in order of first appearance, each with its number of occurrences. */
  ghost predicate LabelMap(seen: seq<string>, order: seq<string>, counts: map<string, nat>) {
    && order == Seqs.Dedup(seen)
    && (forall l :: l in counts <==> l in order)
    && (forall l :: l in counts ==> counts[l] == multiset(seen)[l])
  }

  /** `labelCounts.set(label, (labelCounts.get(label) || 0) + 1)` keeps the label map. */
  lemma CountOne(seen: seq<string>, order: seq<string>, counts: map<string, nat>, tag: string,
                  order': seq<string>, counts': map<string, nat>)
    requires LabelMap(seen, order, counts)
    requires order' == if tag in counts then order else order + [tag]
    requires counts' == counts[tag := (if tag in counts then counts[tag] else 0) + 1]
    ensures LabelMap(seen + [tag], order', counts')
  {
    Seqs.DedupSnoc(seen, tag);
    CountKeys(order, counts, tag, order', counts');
    CountValues(seen, counts, tag, counts');
  }

  lemma CountKeys(order: seq<string>, counts: map<string, nat>, tag: string,
                  order': seq<string>, counts': map<string, nat>)
    requires forall l :: l in counts <==> l in order
    requires order' == if tag in counts then order else order + [tag]
    requires counts' == counts[tag := (if tag in counts then counts[tag] else 0) + 1]
    ensures forall l :: l in counts' <==> l in order'
  {
    forall l ensures l in counts' <==> l in order' {
      if l != tag {
        assert l in order' <==> l in order;
      }
    }
  }

  lemma CountValues(seen: seq<string>, counts: map<string, nat>, tag: string, counts': map<string, nat>)
    requires forall l :: l in counts ==> counts[l] == multiset(seen)[l]
    requires tag in counts <==> tag in seen
    requires counts' == counts[tag := (if tag in counts then counts[tag] else 0) + 1]
    ensures forall l :: l in counts' ==> counts'[l] == multiset(seen + [tag])[l]
  {
    assert multiset(seen + [tag]) == multiset(seen) + multiset{tag};
    forall l | l in counts' ensures counts'[l] == multiset(seen + [tag])[l] {
      if l != tag {
        assert counts'[l] == counts[l];
      }
    }
  }

  /** The label map after counting `labels` one at a time, as `todayStats` fills it. */
  datatype Tally = Tally(order: seq<string>, counts: map<string, nat>)

  function Counted(labels: seq<string>): Tally {
    if labels == [] then Tally([], map[])
    else
      var t := Counted(labels[..|labels| - 1]);
      var tag := labels[|labels| - 1];
      Tally(if tag in t.counts then t.order else t.order + [tag],
            t.counts[tag := (if tag in t.counts then t.counts[tag] else 0) + 1])
  }

  /** Counting one label at a time yields the distinct labels in order of first appearance,
      each mapped to its number of occurrences. */
  lemma {:induction false} CountedIsLabelMap(labels: seq<string>)
    ensures LabelMap(labels, Counted(labels).order, Counted(labels).counts)
  {
    if labels != [] {
      var init := labels[..|labels| - 1];
      var tag := labels[|labels| - 1];
      CountedIsLabelMap(init);
      assert labels == init + [tag];
      CountOne(init, Counted(init).order, Counted(init).counts, tag,
               Counted(labels).order, Counted(labels).counts);
    }
  }

  /** The label map of `todayStats`: one count per label of the focus sessions, in order of
      first appearance. */
  method CountLabels(focusSessions: seq<Entry>) returns (breakdown: seq<LabelCount>)
    ensures breakdown == Breakdown(Labels(focusSessions))
  {
    var labels := Labels(focusSessions);
    var labelCounts: map<string, nat> := map[];
    var order: seq<string> := [];
    var i := 0;
    while i < |labels|
      invariant 0 <= i <= |labels|
      invariant Tally(order, labelCounts) == Counted(labels[..i])
    {
      var tag := labels[i];
      assert labels[..i + 1][..i] == labels[..i];
      var previous := if tag in labelCounts then labelCounts[tag] else 0;
      if tag !in labelCounts {
        order := order + [tag];
      }
      labelCounts := labelCounts[tag := previous + 1];
      i := i + 1;
    }
    assert labels[..i] == labels;
    CountedIsLabelMap(labels);
    breakdown := seq(|order|, k requires 0 <= k < |order| => LabelCount(order[k], labelCounts[order[k]]));
    BreakdownFromMap(labels, order, labelCounts, breakdown);
  }

  lemma BreakdownFromMap(labels: seq<string>, order: seq<string>, counts: map<string, nat>,
                         breakdown: seq<LabelCount>)
    requires LabelMap(labels, order, counts)
    requires |breakdown| == |order|
    requires forall k :: 0 <= k < |order| ==> breakdown[k] == LabelCount(order[k], counts[order[k]])
    ensures breakdown == Breakdown(labels)
  {
  }

  /** `todayStats`: the focus and break sessions of today, the focus time in whole minutes, and
      the number of focus sessions per label. */
  method TodayStats(entries: seq<Entry>, todayStart: int) returns (stats: Stats)
    ensures var today := TodayEntries(entries, todayStart);
      var focus := Seqs.Filter(today, IsFocusEntry);
      && stats.focusCount == |focus|
      && stats.focusCount + stats.breakCount == |today|
      && stats.totalFocusMinutes == RoundedMinutes(TotalDuration(focus))
      && stats.labelBreakdown == Breakdown(Labels(focus))
      && CountTotal(stats.labelBreakdown) == stats.focusCount
  {
    var today := TodayEntries(entries, todayStart);
    var focusSessions := Seqs.Filter(today, IsFocusEntry);
    var breakSessions := Seqs.Filter(today, IsBreakEntry);
    Seqs.FilterSplit(today, IsFocusEntry, IsBreakEntry);
    var totalFocusTime := TotalDuration(focusSessions);
    var breakdown := CountLabels(focusSessions);
    BreakdownProperties(focusSessions);
    stats := Stats(|focusSessions|, |breakSessions|, (totalFocusTime + 30) / 60, breakdown);
  }

  // ---------------------------------------------------------------------------
  // Label presets

  /** `e.label && e.label.trim()`: a non-empty label that is not all whitespace. */
  predicate IsPresetLabel(l: string) {
    l != "" && Text.Trim(l, Text.JsWhitespace) != ""
  }

  function RawLabels(es: seq<Entry>): (r: seq<string>)
    ensures |r| == |es|
  {
    seq(|es|, k requires 0 <= k < |es| => es[k].labelText)
  }

  /** The non-blank labels of `es`, each once, in order of first appearance. */
  function DistinctPresetLabels(es: seq<Entry>): seq<string> {
    Seqs.Dedup(Seqs.Filter(RawLabels(es), IsPresetLabel))
  }

  /** Every preset label is a non-blank label some entry carries. */
  lemma PresetLabelsFromEntries(es: seq<Entry>)
    ensures forall l :: l in DistinctPresetLabels(es) ==> IsPresetLabel(l) && l in RawLabels(es)
  {
    Seqs.FilterContains(RawLabels(es), IsPresetLabel);
  }

  /** `recentLabels`: the first ten distinct non-blank labels, newest first since the log is
      kept newest first. */
  method RecentLabels(entries: seq<Entry>) returns (labels: seq<string>)
    ensures labels == Seqs.Take(DistinctPresetLabels(entries), 10)
    ensures |labels| <= 10 && Seqs.Distinct(labels)
    ensures forall l :: l in labels ==> IsPresetLabel(l) && l in RawLabels(entries)
  {
    ghost var raw := RawLabels(entries);
    ghost var presets: seq<string> := [];
    var seen: set<string> := {};
    var order: seq<string> := [];
    var i := 0;
    while i < |entries|
      invariant 0 <= i <= |entries|
      invariant presets == Seqs.Filter(raw[..i], IsPresetLabel)
      invariant order == Seqs.Dedup(presets)
      invariant forall l :: l in seen <==> l in order
    {
      var tag := entries[i].labelText;
      assert raw[i] == tag;
      assert raw[..i + 1] == raw[..i] + [tag];
      Seqs.FilterSnoc(raw[..i], tag, IsPresetLabel);
      assert Seqs.Filter(raw[..i + 1], IsPresetLabel)
        == if IsPresetLabel(tag) then presets + [tag] else presets;
      Seqs.DedupSnoc(presets, tag);
      if IsPresetLabel(tag) {
        presets := presets + [tag];
        if tag !in seen {
          order := order + [tag];
          seen := seen + {tag};
        }
      }
      i := i + 1;
    }
    assert raw[..i] == raw;
    labels := Seqs.Take(order, 10);
    PresetLabelsFromEntries(entries);
  }

  /** A cleared log has nothing for today and no label presets. */
  lemma ClearedHistoryIsEmpty(now: int, todayStart: int)
    ensures TodayEntries(ClearHistory(now).entries, todayStart) == []
    ensures DistinctPresetLabels(ClearHistory(now).entries) == []
  {
  }
}
