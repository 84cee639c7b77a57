/**
  The row planning of the WLASL ingestion step (populate_database.py,
  `WLASLDatabaseManager.insert_words_and_videos`). The MySQL cursor is
  replaced by the log of the rows it is asked to insert and of the commits
  it is asked to make; the id the database reports for a word and the values
  of `random.random()` are inputs.
 */
module Ingestion {
  import opened Wrappers

  // ---------------------------------------------------------------------
  // Parsed WLASL data and emitted events
  // ---------------------------------------------------------------------

  /** What `dict.get(key)` finds for one key of a parsed JSON object. */
  datatype JsonField<T> = Missing | Null | Value(v: T)

  /** One element of an entry's `instances` list: the keys the step reads. */
  datatype Instance = Instance(
    videoId: JsonField<string>,
    url: JsonField<string>,
    fps: Option<real>,
    frameStart: Option<int>,
    frameEnd: Option<int>,
    signerId: Option<int>)

  /** One element of the WLASL list. */
  datatype Entry = Entry(gloss: Option<string>, instances: JsonField<seq<Instance>>)

  /** The `split` column of a video row. */
  datatype SplitName = Train | Val | Test

  /** A row the cursor is asked to insert, or a commit of the connection. */
  datatype Event =
    | WordRow(gloss: Option<string>, sampleCount: nat)
    | VideoRow(wordId: int, videoId: Option<string>, url: Option<string>, durationSec: Option<real>,
               fps: Option<real>, signerId: Option<int>, split: SplitName,
               downloaded: bool, processed: bool)
    | Commit

  /** Kept words between intermediate commits. */
  const CommitEvery: nat := 100

  // ---------------------------------------------------------------------
  // Per-entry and per-instance values (populate_database.py:104-151)
  // ---------------------------------------------------------------------

  /**
    `obj.get(key, default)`: the default when the key is missing, `None` for
    a JSON null, and the stored value otherwise.
   */
  function GetOr<T>(f: JsonField<T>, default: T): (r: Option<T>)
    ensures r.None? <==> f.Null?
    ensures f.Missing? ==> r == Some(default)
    ensures f.Value? ==> r == Some(f.v)
  {
    match f
    case Missing => Some(default)
    case Null => None
    case Value(v) => Some(v)
  }

  /** `entry.get('instances', [])`: a missing key gives `[]`, a JSON null gives `None`. */
  function InstancesOf(e: Entry): Option<seq<Instance>> {
    GetOr(e.instances, [])
  }

  /** `instances is None or len(instances) == 0`. */
  predicate Skipped(e: Entry) {
    InstancesOf(e).None? || |InstancesOf(e).value| == 0
  }

  /** The instances of an entry, none for a JSON null. */
  function Instances(e: Entry): seq<Instance> {
    if InstancesOf(e).Some? then InstancesOf(e).value else []
  }

  /** `str(gloss)` as an f-string renders it. */
  function GlossText(gloss: Option<string>): string {
    match gloss
    case None => "None"
    case Some(g) => g
  }

  /** One decimal digit. */
  function DigitChar(d: nat): char
    requires d < 10
  {
    ('0' as int + d) as char
  }

  /** `str(n)` for a natural number. */
  function NatToString(n: nat): (r: string)
    ensures |r| >= 1
    decreases n
  {
    if n < 10 then [DigitChar(n)] else NatToString(n / 10) + [DigitChar(n % 10)]
  }

  /** `f"{gloss}_{idx}"`. */
  function DefaultVideoId(gloss: Option<string>, idx: nat): string {
    GlossText(gloss) + "_" + NatToString(idx)
  }

  /**
    `instance.get('video_id', f"{gloss}_{idx}")`: the stored id, `None` for
    a JSON null, and `gloss_idx` when the key is missing.
   */
  function VideoIdOf(gloss: Option<string>, idx: nat, inst: Instance): (r: Option<string>)
    ensures r.None? <==> inst.videoId.Null?
    ensures inst.videoId.Value? ==> r == Some(inst.videoId.v)
    ensures inst.videoId.Missing? ==> r == Some(GlossText(gloss) + "_" + NatToString(idx))
  {
    GetOr(inst.videoId, DefaultVideoId(gloss, idx))
  }

  /** `instance.get('url', '')`: the stored url, `None` for a JSON null, `''` when the key is missing. */
  function UrlOf(inst: Instance): (r: Option<string>)
    ensures r.None? <==> inst.url.Null?
    ensures inst.url.Value? ==> r == Some(inst.url.v)
    ensures inst.url.Missing? ==> r == Some("")
  {
    GetOr(inst.url, "")
  }

  /**
    The estimated duration: present exactly when `fps` is truthy (present
    and non-zero) and both frame bounds are present (a `frame_start` of 0
    counts); it is then the frame span divided by `fps`.
   */
  function Duration(inst: Instance): (d: Option<real>)
    ensures d.Some? <==> inst.fps.Some? && inst.fps.value != 0.0
                         && inst.frameStart.Some? && inst.frameEnd.Some?
    ensures d.Some? ==> d.value * inst.fps.value == (inst.frameEnd.value - inst.frameStart.value) as real
  {
    if inst.fps.Some? && inst.fps.value != 0.0 && inst.frameStart.Some? && inst.frameEnd.Some?
    then Some((inst.frameEnd.value - inst.frameStart.value) as real / inst.fps.value)
    else None
  }

  /** The IEEE double that the literal `0.70` denotes: `6305039478318694 / 2^53`. */
  const TrainBelow: real := 6305039478318694.0 / 9007199254740992.0

  /** The IEEE double that the literal `0.85` denotes: `7656119366529843 / 2^53`. */
  const ValBelow: real := 7656119366529843.0 / 9007199254740992.0

  /**
    The 70/15/15 split of a draw, compared as Python compares it, against the
    doubles nearest 0.70 and 0.85: each draw gets exactly one of the three.
   */
  function SplitOf(r: real): (s: SplitName)
    ensures s == Train <==> r < TrainBelow
    ensures s == Val <==> TrainBelow <= r < ValBelow
    ensures s == Test <==> ValBelow <= r
  {
    if r < TrainBelow then Train else if r < ValBelow then Val else Test
  }

  /**
    Both thresholds lie just below their decimal literals, by less than one
    double spacing (`2^-53`), so a draw equal to the threshold double itself
    already goes to the next split.
   */
  lemma SplitThresholds()
    ensures 0.70 - 1.0 / 9007199254740992.0 < TrainBelow < 0.70
    ensures 0.85 - 1.0 / 9007199254740992.0 < ValBelow < 0.85
    ensures SplitOf(TrainBelow) == Val && SplitOf(ValBelow) == Test
  {
  }

  /** The video row of instance `idx` of a word. */
  function VideoRowOf(gloss: Option<string>, idx: nat, inst: Instance, wordId: int, draw: real): Event {
    VideoRow(wordId, VideoIdOf(gloss, idx, inst), UrlOf(inst), Duration(inst), inst.fps,
             inst.signerId, SplitOf(draw), false, false)
  }

  // ---------------------------------------------------------------------
  // Specification of the step
  // ---------------------------------------------------------------------

  /** The log so far and the three counters. */
  datatype Totals = Totals(log: seq<Event>, words: nat, videos: nat, skipped: nat)

  /** The video rows of a word's instances; the `k`-th one takes draw number `base + k`. */
  function VideoRows(gloss: Option<string>, insts: seq<Instance>, wordId: int, base: nat,
                     draws: nat -> real): seq<Event>
    decreases |insts|
  {
    if insts == [] then []
    else
      var n := |insts| - 1;
      VideoRows(gloss, insts[..n], wordId, base, draws) + [VideoRowOf(gloss, n, insts[n], wordId, draws(base + n))]
  }

  /** One iteration of the loop over the entries. */
  function Visit(st: Totals, e: Entry, wordIds: nat -> int, draws: nat -> real): Totals
  {
    if Skipped(e) then st.(skipped := st.skipped + 1)
    else
      var insts := Instances(e);
      var words := st.words + 1;
      var rows := VideoRows(e.gloss, insts, wordIds(st.words), st.videos, draws);
      Totals(st.log + [WordRow(e.gloss, |insts|)] + rows + (if words % CommitEvery == 0 then [Commit] else []),
             words, st.videos + |insts|, st.skipped)
  }

  /** The state after the loop has visited `data`. */
  function IngestPrefix(data: seq<Entry>, wordIds: nat -> int, draws: nat -> real): Totals
    decreases |data|
  {
    if data == [] then Totals([], 0, 0, 0)
    else Visit(IngestPrefix(data[..|data| - 1], wordIds, draws), data[|data| - 1], wordIds, draws)
  }

  /**
    The state once the final commit is made: the log ends with that commit,
    and every entry is counted once, as a word or as skipped.
   */
  function Ingest(data: seq<Entry>, wordIds: nat -> int, draws: nat -> real): (r: Totals)
    ensures |r.log| > 0 && r.log[|r.log| - 1] == Commit
    ensures r.words + r.skipped == |data|
  {
    var st := IngestPrefix(data, wordIds, draws);
    IngestCounts(data, wordIds, draws);
    st.(log := st.log + [Commit])
  }

  /** The number of entries that are not skipped. */
  function KeptCount(data: seq<Entry>): nat
    decreases |data|
  {
    if data == [] then 0
    else KeptCount(data[..|data| - 1]) + (if Skipped(data[|data| - 1]) then 0 else 1)
  }

  /** The number of instances over the entries that are not skipped. */
  function TotalInstances(data: seq<Entry>): nat
    decreases |data|
  {
    if data == [] then 0
    else TotalInstances(data[..|data| - 1]) + (if Skipped(data[|data| - 1]) then 0 else |Instances(data[|data| - 1])|)
  }

  // ---------------------------------------------------------------------
  // The step itself (populate_database.py:89-188)
  // ---------------------------------------------------------------------

  /**
    `insert_words_and_videos`: `wordIds(k)` is the id the database reports
    for the `k`-th word inserted, `draws(n)` the `n`-th value of
    `random.random()`.
   */
  method InsertWordsAndVideos(wlaslData: seq<Entry>, wordIds: nat -> int, draws: nat -> real)
    returns (log: seq<Event>, totalWords: nat, totalVideos: nat, skippedWords: nat)
    ensures Totals(log, totalWords, totalVideos, skippedWords) == Ingest(wlaslData, wordIds, draws)
    ensures totalWords + skippedWords == |wlaslData|
    ensures totalWords == KeptCount(wlaslData) && totalVideos == TotalInstances(wlaslData)
    ensures TallyOf(log) == Tally(totalWords, totalVideos, totalWords / CommitEvery + 1, 0)
    ensures |log| > 0 && log[|log| - 1] == Commit
  {
    log := [];
    totalWords, totalVideos, skippedWords := 0, 0, 0;
    for i := 0 to |wlaslData|
      invariant Totals(log, totalWords, totalVideos, skippedWords) == IngestPrefix(wlaslData[..i], wordIds, draws)
    {
      var entry := wlaslData[i];
      assert wlaslData[..i + 1][..i] == wlaslData[..i];
      var gloss := entry.gloss;
      var instances := InstancesOf(entry);
      if instances.None? || |instances.value| == 0 {
        skippedWords := skippedWords + 1;
        continue;
      }
      var insts := instances.value;
      var sampleCount := |insts|;
      log := log + [WordRow(gloss, sampleCount)];
      var wordId := wordIds(totalWords);
      totalWords := totalWords + 1;
      ghost var start, base := log, totalVideos;
      for idx := 0 to |insts|
        invariant log == start + VideoRows(gloss, insts[..idx], wordId, base, draws)
        invariant totalVideos == base + idx
      {
        assert insts[..idx + 1][..idx] == insts[..idx];
        var instance := insts[idx];
        var videoId := VideoIdOf(gloss, idx, instance);
        var url := UrlOf(instance);
        var duration := Duration(instance);
        var split := SplitOf(draws(totalVideos));
        log := log + [VideoRow(wordId, videoId, url, duration, instance.fps, instance.signerId, split, false, false)];
        totalVideos := totalVideos + 1;
      }
      assert insts[..|insts|] == insts;
      if totalWords % CommitEvery == 0 {
        log := log + [Commit];
      }
    }
    assert wlaslData[..|wlaslData|] == wlaslData;
    log := log + [Commit];
    IngestCounts(wlaslData, wordIds, draws);
    IngestLogShape(wlaslData, wordIds, draws);
  }

  // ---------------------------------------------------------------------
  // Properties
  // ---------------------------------------------------------------------

  /** Every entry is counted once, as kept or skipped; one video per instance of a kept entry. */
  lemma {:induction false} IngestCounts(data: seq<Entry>, wordIds: nat -> int, draws: nat -> real)
    ensures var st := IngestPrefix(data, wordIds, draws);
            && st.words == KeptCount(data)
            && st.words + st.skipped == |data|
            && st.videos == TotalInstances(data)
    decreases |data|
  {
    if data != [] {
      IngestCounts(data[..|data| - 1], wordIds, draws);
    }
  }

  /**
    One visit only appends to the log, and counts its entry once: as skipped,
    with nothing logged, or as a word whose row comes first and whose
    instances are all counted as videos.
   */
  lemma VisitAppends(st: Totals, e: Entry, wordIds: nat -> int, draws: nat -> real)
    ensures var r := Visit(st, e, wordIds, draws);
            && st.log <= r.log
            && r.words + r.skipped == st.words + st.skipped + 1
            && (Skipped(e) ==> r == st.(skipped := st.skipped + 1))
            && (!Skipped(e) ==> && r.words == st.words + 1 && r.skipped == st.skipped
                                && r.videos == st.videos + |Instances(e)|
                                && |r.log| > |st.log| && r.log[|st.log|] == WordRow(e.gloss, |Instances(e)|))
  {
  }

  /** An entry without instances adds nothing to the log; only the skipped counter moves. */
  lemma SkipEntry(data: seq<Entry>, e: Entry, wordIds: nat -> int, draws: nat -> real)
    requires Skipped(e)
    ensures var st := IngestPrefix(data, wordIds, draws);
            IngestPrefix(data + [e], wordIds, draws) == st.(skipped := st.skipped + 1)
  {
    assert (data + [e])[..|data|] == data;
  }

  /**
    A kept entry appends its word row, with `sample_count` the number of its
    instances, then one video row per instance under the id reported for
    that word, then a commit exactly when the word count reaches a multiple
    of 100.
   */
  lemma KeepEntry(data: seq<Entry>, e: Entry, wordIds: nat -> int, draws: nat -> real)
    requires !Skipped(e)
    ensures var st := IngestPrefix(data, wordIds, draws);
            var st' := IngestPrefix(data + [e], wordIds, draws);
            var n := |Instances(e)|;
            && n > 0
            && st'.words == st.words + 1 && st'.videos == st.videos + n && st'.skipped == st.skipped
            && st'.log == st.log + [WordRow(e.gloss, n)]
                          + VideoRows(e.gloss, Instances(e), wordIds(st.words), st.videos, draws)
                          + (if (st.words + 1) % CommitEvery == 0 then [Commit] else [])
  {
    assert (data + [e])[..|data|] == data;
  }

  /**
    Exactly one row per instance, in order: row `j` carries the word's id,
    the instance's `video_id` (or `gloss_j` when the key is missing), its
    url, duration, fps and signer, the split of draw `base + j`, and
    `downloaded = processed = false`.
   */
  lemma {:induction false} VideoRowsAt(gloss: Option<string>, insts: seq<Instance>, wordId: int, base: nat,
                                       draws: nat -> real, j: nat)
    requires j < |insts|
    ensures var rows := VideoRows(gloss, insts, wordId, base, draws);
            && |rows| == |insts|
            && rows[j].VideoRow?
            && rows[j].wordId == wordId
            && rows[j].videoId == VideoIdOf(gloss, j, insts[j])
            && rows[j].url == UrlOf(insts[j])
            && rows[j].durationSec == Duration(insts[j])
            && rows[j].fps == insts[j].fps
            && rows[j].signerId == insts[j].signerId
            && rows[j].split == SplitOf(draws(base + j))
            && !rows[j].downloaded && !rows[j].processed
    decreases |insts|
  {
    var n := |insts| - 1;
    VideoRowsLength(gloss, insts[..n], wordId, base, draws);
    if j < n {
      VideoRowsAt(gloss, insts[..n], wordId, base, draws, j);
    }
  }

  /** There are as many video rows as instances. */
  lemma {:induction false} VideoRowsLength(gloss: Option<string>, insts: seq<Instance>, wordId: int, base: nat,
                                           draws: nat -> real)
    ensures |VideoRows(gloss, insts, wordId, base, draws)| == |insts|
    decreases |insts|
  {
    if insts != [] {
      VideoRowsLength(gloss, insts[..|insts| - 1], wordId, base, draws);
    }
  }

  /** Decimal rendering is injective. */
  lemma {:induction false} NatToStringInjective(a: nat, b: nat)
    requires NatToString(a) == NatToString(b)
    ensures a == b
    decreases a
  {
    var sa, sb := NatToString(a), NatToString(b);
    if a < 10 && b < 10 {
      assert sa[0] == DigitChar(a) && sb[0] == DigitChar(b);
    } else if 10 <= a && 10 <= b {
      assert sa[|sa| - 1] == DigitChar(a % 10) && sb[|sb| - 1] == DigitChar(b % 10);
      assert NatToString(a / 10) == sa[..|sa| - 1] == sb[..|sb| - 1] == NatToString(b / 10);
      NatToStringInjective(a / 10, b / 10);
    }
  }

  /** The default ids of two different instances of one word differ. */
  lemma DefaultVideoIdsDistinct(gloss: Option<string>, i: nat, j: nat)
    requires i != j
    ensures DefaultVideoId(gloss, i) != DefaultVideoId(gloss, j)
  {
    var p := GlossText(gloss) + "_";
    if DefaultVideoId(gloss, i) == DefaultVideoId(gloss, j) {
      assert NatToString(i) == DefaultVideoId(gloss, i)[|p|..];
      assert NatToString(j) == DefaultVideoId(gloss, j)[|p|..];
      NatToStringInjective(i, j);
    }
  }

  // ---------------------------------------------------------------------
  // The shape of the whole log
  // ---------------------------------------------------------------------

  /**
    How many word rows, video rows and commits a log holds, and how many
    video rows the latest word row still announces (`open`).
   */
  datatype Tally = Tally(words: nat, videos: nat, commits: nat, open: nat)

  /** The tally after one more event. */
  function Bump(t: Tally, ev: Event): Tally {
    match ev
    case WordRow(_, n) => t.(words := t.words + 1, open := n)
    case VideoRow(_, _, _, _, _, _, _, _, _) => t.(videos := t.videos + 1, open := if t.open > 0 then t.open - 1 else 0)
    case Commit => t.(commits := t.commits + 1)
  }

  /** The tally after the events of `log`, starting from `t`. */
  function TallyFrom(t: Tally, log: seq<Event>): Tally
    decreases |log|
  {
    if log == [] then t else TallyFrom(Bump(t, log[0]), log[1..])
  }

  /** The tally of a whole log. */
  function TallyOf(log: seq<Event>): Tally {
    TallyFrom(Tally(0, 0, 0, 0), log)
  }

  /**
    What an event must satisfy, given the tally `t` of the events before it:
    a word row counts at least one sample and comes only once the previous
    word's video rows are all in; a video row is one the latest word row still
    announces, belongs to that word, uses the next draw and is neither
    downloaded nor processed; the `c+1`-th commit comes between words,
    exactly when `100 * (c+1)` words have been inserted. So each word row's
    `sample_count` is the number of video rows that follow it.
   */
  predicate EventFits(ev: Event, t: Tally, wordIds: nat -> int, draws: nat -> real) {
    match ev
    case WordRow(_, n) => n >= 1 && t.open == 0
    case VideoRow(wid, _, _, _, _, _, split, downloaded, processed) =>
      t.open >= 1 && t.words >= 1 && wid == wordIds(t.words - 1) && split == SplitOf(draws(t.videos))
      && !downloaded && !processed
    case Commit => t.open == 0 && t.words == CommitEvery * (t.commits + 1)
  }

  /** Every event of `log` fits what precedes it, when `t` counts what came before `log`. */
  predicate FitsFrom(t: Tally, log: seq<Event>, wordIds: nat -> int, draws: nat -> real)
    decreases |log|
  {
    log == [] || (EventFits(log[0], t, wordIds, draws) && FitsFrom(Bump(t, log[0]), log[1..], wordIds, draws))
  }

  /** Every event of the log fits what precedes it. */
  predicate LogFits(log: seq<Event>, wordIds: nat -> int, draws: nat -> real) {
    FitsFrom(Tally(0, 0, 0, 0), log, wordIds, draws)
  }

  /** Tallying and checking a concatenation is tallying and checking its two parts in turn. */
  lemma {:induction false} AppendFrom(t: Tally, a: seq<Event>, b: seq<Event>, wordIds: nat -> int,
                                      draws: nat -> real)
    ensures TallyFrom(t, a + b) == TallyFrom(TallyFrom(t, a), b)
    ensures FitsFrom(t, a + b, wordIds, draws) <==>
              FitsFrom(t, a, wordIds, draws) && FitsFrom(TallyFrom(t, a), b, wordIds, draws)
    decreases |a|
  {
    if a == [] {
      assert a + b == b;
    } else {
      assert (a + b)[0] == a[0] && (a + b)[1..] == a[1..] + b;
      AppendFrom(Bump(t, a[0]), a[1..], b, wordIds, draws);
    }
  }

  /** Appending one event: its tally is bumped, and the log fits iff the event fits. */
  lemma Snoc(log: seq<Event>, ev: Event, wordIds: nat -> int, draws: nat -> real)
    ensures TallyOf(log + [ev]) == Bump(TallyOf(log), ev)
    ensures LogFits(log + [ev], wordIds, draws) <==>
              LogFits(log, wordIds, draws) && EventFits(ev, TallyOf(log), wordIds, draws)
  {
    AppendFrom(Tally(0, 0, 0, 0), log, [ev], wordIds, draws);
    assert [ev][1..] == [];
  }

  /** In a fitting log, each event fits the events before it. */
  lemma LogFitsAt(log: seq<Event>, p: nat, wordIds: nat -> int, draws: nat -> real)
    requires LogFits(log, wordIds, draws) && p < |log|
    ensures EventFits(log[p], TallyOf(log[..p]), wordIds, draws)
  {
    assert log == log[..p] + log[p..];
    AppendFrom(Tally(0, 0, 0, 0), log[..p], log[p..], wordIds, draws);
    assert log[p..][0] == log[p];
  }

  /** A video row of word `wid` made from draw `draw`, neither downloaded nor processed. */
  predicate VideoRowFor(ev: Event, wid: int, draw: real) {
    ev.VideoRow? && ev.wordId == wid && ev.split == SplitOf(draw) && !ev.downloaded && !ev.processed
  }

  /**
    Video rows of the latest word, as many as it announces, the `j`-th made
    from the draw after the `t.videos + j` already used, fit after `t`, add
    only to its video count and leave none announced.
   */
  lemma {:induction false} VideoRowsFrom(t: Tally, rows: seq<Event>, wordIds: nat -> int, draws: nat -> real)
    requires t.words >= 1 && t.open == |rows|
    requires forall j :: 0 <= j < |rows| ==> VideoRowFor(rows[j], wordIds(t.words - 1), draws(t.videos + j))
    ensures FitsFrom(t, rows, wordIds, draws)
    ensures TallyFrom(t, rows) == t.(videos := t.videos + |rows|, open := 0)
    decreases |rows|
  {
    if rows != [] {
      var t' := t.(videos := t.videos + 1, open := t.open - 1);
      forall j | 0 <= j < |rows[1..]|
        ensures VideoRowFor(rows[1..][j], wordIds(t'.words - 1), draws(t'.videos + j))
      {
        assert rows[1..][j] == rows[j + 1];
      }
      assert VideoRowFor(rows[0], wordIds(t.words - 1), draws(t.videos + 0));
      VideoRowsFrom(t', rows[1..], wordIds, draws);
    }
  }

  /** A word's video rows fit after its word row, add one video each and close the word. */
  lemma VideoRowsFit(prefix: seq<Event>, gloss: Option<string>, insts: seq<Instance>,
                     wordIds: nat -> int, draws: nat -> real)
    requires LogFits(prefix, wordIds, draws) && TallyOf(prefix).words >= 1 && TallyOf(prefix).open == |insts|
    ensures var t := TallyOf(prefix);
            var log := prefix + VideoRows(gloss, insts, wordIds(t.words - 1), t.videos, draws);
            && LogFits(log, wordIds, draws)
            && TallyOf(log) == t.(videos := t.videos + |insts|, open := 0)
  {
    var t := TallyOf(prefix);
    var rows := VideoRows(gloss, insts, wordIds(t.words - 1), t.videos, draws);
    VideoRowsLength(gloss, insts, wordIds(t.words - 1), t.videos, draws);
    forall j | 0 <= j < |rows| ensures VideoRowFor(rows[j], wordIds(t.words - 1), draws(t.videos + j)) {
      VideoRowsAt(gloss, insts, wordIds(t.words - 1), t.videos, draws, j);
    }
    VideoRowsFrom(t, rows, wordIds, draws);
    AppendFrom(Tally(0, 0, 0, 0), prefix, rows, wordIds, draws);
  }

  /** `(n + 1) / 100` steps up exactly when `n + 1` is a multiple of 100. */
  lemma DivStep(n: nat)
    ensures (n + 1) / CommitEvery == n / CommitEvery + (if (n + 1) % CommitEvery == 0 then 1 else 0)
    ensures (n + 1) % CommitEvery == 0 ==> n + 1 == CommitEvery * (n / CommitEvery + 1)
  {
    var q, r := n / CommitEvery, n % CommitEvery;
    assert n == CommitEvery * q + r && 0 <= r < CommitEvery;
    if r == CommitEvery - 1 {
      assert n + 1 == CommitEvery * (q + 1);
    } else {
      assert n + 1 == CommitEvery * q + (r + 1);
    }
  }

  /**
    The invariant of the loop over the entries: the log holds one word row
    per inserted word, one video row per inserted video, one commit per
    hundred words, and every event fits.
   */
  predicate Shaped(st: Totals, wordIds: nat -> int, draws: nat -> real) {
    TallyOf(st.log) == Tally(st.words, st.videos, st.words / CommitEvery, 0) && LogFits(st.log, wordIds, draws)
  }

  /** The word row and video rows of a kept entry keep the log fitting. */
  lemma KeptBodyFits(st: Totals, e: Entry, wordIds: nat -> int, draws: nat -> real)
    requires Shaped(st, wordIds, draws) && !Skipped(e)
    ensures var body := st.log + [WordRow(e.gloss, |Instances(e)|)]
              + VideoRows(e.gloss, Instances(e), wordIds(st.words), st.videos, draws);
            && LogFits(body, wordIds, draws)
            && TallyOf(body) == Tally(st.words + 1, st.videos + |Instances(e)|, st.words / CommitEvery, 0)
  {
    var insts := Instances(e);
    Snoc(st.log, WordRow(e.gloss, |insts|), wordIds, draws);
    VideoRowsFit(st.log + [WordRow(e.gloss, |insts|)], e.gloss, insts, wordIds, draws);
  }

  /** The commit made after every hundredth word keeps the log fitting and counts it. */
  lemma CommitStep(body: seq<Event>, words: nat, wordIds: nat -> int, draws: nat -> real)
    requires LogFits(body, wordIds, draws)
    requires TallyOf(body).words == words + 1 && TallyOf(body).commits == words / CommitEvery
    requires TallyOf(body).open == 0
    ensures var log := body + (if (words + 1) % CommitEvery == 0 then [Commit] else []);
            && LogFits(log, wordIds, draws)
            && TallyOf(log) == TallyOf(body).(commits := (words + 1) / CommitEvery)
  {
    DivStep(words);
    if (words + 1) % CommitEvery == 0 {
      Snoc(body, Commit, wordIds, draws);
    } else {
      assert body + [] == body;
    }
  }

  /** Visiting one entry keeps the loop invariant. */
  lemma VisitShaped(st: Totals, e: Entry, wordIds: nat -> int, draws: nat -> real)
    requires Shaped(st, wordIds, draws)
    ensures Shaped(Visit(st, e, wordIds, draws), wordIds, draws)
  {
    if !Skipped(e) {
      var insts := Instances(e);
      var body := st.log + [WordRow(e.gloss, |insts|)]
        + VideoRows(e.gloss, insts, wordIds(st.words), st.videos, draws);
      KeptBodyFits(st, e, wordIds, draws);
      CommitStep(body, st.words, wordIds, draws);
    }
  }

  /** Before the final commit the log satisfies the loop invariant. */
  lemma {:induction false} PrefixLogShape(data: seq<Entry>, wordIds: nat -> int, draws: nat -> real)
    ensures Shaped(IngestPrefix(data, wordIds, draws), wordIds, draws)
    decreases |data|
  {
    if data != [] {
      PrefixLogShape(data[..|data| - 1], wordIds, draws);
      VisitShaped(IngestPrefix(data[..|data| - 1], wordIds, draws), data[|data| - 1], wordIds, draws);
    }
  }

  /**
    The whole log: one word row per kept entry, one video row per instance
    of a kept entry, one commit per hundred words plus the final one, which
    comes last; every event before it fits the events before it.
   */
  lemma IngestLogShape(data: seq<Entry>, wordIds: nat -> int, draws: nat -> real)
    ensures var t := Ingest(data, wordIds, draws);
            && TallyOf(t.log) == Tally(KeptCount(data), TotalInstances(data), KeptCount(data) / CommitEvery + 1, 0)
            && |t.log| > 0 && t.log[|t.log| - 1] == Commit
            && forall p: nat :: p < |t.log| - 1 ==> EventFits(t.log[p], TallyOf(t.log[..p]), wordIds, draws)
  {
    var st := IngestPrefix(data, wordIds, draws);
    PrefixLogShape(data, wordIds, draws);
    IngestCounts(data, wordIds, draws);
    Snoc(st.log, Commit, wordIds, draws);
    var log := st.log + [Commit];
    forall p: nat | p < |log| - 1
      ensures EventFits(log[p], TallyOf(log[..p]), wordIds, draws)
    {
      LogFitsAt(st.log, p, wordIds, draws);
      assert log[..p] == st.log[..p] && log[p] == st.log[p];
    }
  }
}
