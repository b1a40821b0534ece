/** The SAX content handler of the validator (SAXValidator.ImageHandler): it counts the
    <image> elements, the images holding a "loc right" localization, and how often each
    label text occurs inside an image, while the parser streams the document to it.

    The parser's callbacks are the events below. `Handle` is the handler's reaction to one
    event as a pure function of its state, `Run` replays a whole stream, and the class
    `ImageHandler` updates its fields in place exactly as `Handle` says. */
module SaxStatistics {
  import opened JavaText

  /** A SAX callback as seen by the handler: startElement and endElement with their
      qualified name, characters with the chunk of text delivered. */
  datatype Event = Start(qName: string) | End(qName: string) | Characters(text: string)

  /** The handler's fields, as a value. */
  datatype Stats = Stats(imageCount: nat, locRightCount: nat, labels: map<string, nat>,
                         text: string, hasLocRight: bool, inside: bool)

  /** A freshly constructed handler. */
  const Initial: Stats := Stats(0, 0, map[], "", false, false)

  /** Map.merge(key, 1, Integer::sum): one more occurrence of `key`. */
  function Merge(m: map<string, nat>, key: string): (r: map<string, nat>)
    ensures r.Keys == m.Keys + {key}
    ensures r[key] == (if key in m then m[key] else 0) + 1
    ensures forall k :: k in m && k != key ==> r[k] == m[k]
  {
    m[key := (if key in m then m[key] else 0) + 1]
  }

  /** The localization that the end of element `qName` counts: inside an image not yet
      counted, a "localization" element whose trimmed text is "loc right", both compared
      ignoring case. */
  predicate CountsLocRight(st: Stats, qName: string) {
    st.inside && Lower(qName) == "localization" &&
    EqualsIgnoreCase("loc right", Trim(st.text)) && !st.hasLocRight
  }

  /** The label that the end of element `qName` counts, if any: the trimmed text of a
      "label" element inside an image, when it is not empty. */
  function CountedLabel(st: Stats, qName: string): Option<string> {
    var content := Trim(st.text);
    if st.inside && Lower(qName) == "label" && content != "" then Some(content) else None
  }

  /** The label map after counting `counted`, if there is one. */
  function AddLabel(m: map<string, nat>, counted: Option<string>): map<string, nat> {
    match counted
    case Some(l) => Merge(m, l)
    case None => m
  }

  /** The handler's reaction to one event. */
  function Handle(st: Stats, e: Event): Stats {
    match e
    case Start(q) =>
      if EqualsIgnoreCase("image", q) then
        st.(text := "", imageCount := st.imageCount + 1, hasLocRight := false, inside := true)
      else
        st.(text := "")
    case End(q) =>
      var loc := CountsLocRight(st, q);
      var closes := EqualsIgnoreCase("image", q);
      st.(locRightCount := if loc then st.locRightCount + 1 else st.locRightCount,
          labels := AddLabel(st.labels, CountedLabel(st, q)),
          hasLocRight := if closes then false else loc || st.hasLocRight,
          inside := if closes then false else st.inside,
          text := "")
    case Characters(t) =>
      st.(text := st.text + t)
  }

  /** The state after the handler has seen `events`, starting from `st`. */
  function Run(st: Stats, events: seq<Event>): Stats
    decreases |events|
  {
    if events == [] then st else Run(Handle(st, events[0]), events[1..])
  }

  // ---- Reference counts over an event stream ----

  predicate IsImageStart(e: Event) {
    e.Start? && EqualsIgnoreCase("image", e.qName)
  }

  /** The number of startElement events naming an image, ignoring case. */
  function ImageStarts(events: seq<Event>): nat {
    if events == [] then 0
    else (if IsImageStart(events[0]) then 1 else 0) + ImageStarts(events[1..])
  }

  /** The label that event `e` counts in state `st`, if any. */
  function LabelOf(st: Stats, e: Event): Option<string> {
    if e.End? then CountedLabel(st, e.qName) else None
  }

  function Listed(counted: Option<string>): seq<string> {
    if counted.Some? then [counted.value] else []
  }

  /** The label texts the handler counts while replaying `events` from `st`, in order. */
  function CountedLabels(st: Stats, events: seq<Event>): seq<string>
    decreases |events|
  {
    if events == [] then []
    else Listed(LabelOf(st, events[0])) + CountedLabels(Handle(st, events[0]), events[1..])
  }

  /** The sum of all counts of a frequency map. */
  ghost function Sum(m: map<string, nat>): nat
    decreases |m.Keys|
  {
    if m.Keys == {} then 0
    else
      var k :| k in m.Keys;
      m[k] + Sum(m - {k})
  }

  lemma SumChoice(m: map<string, nat>)
    requires m.Keys != {}
    ensures exists j :: j in m && Sum(m) == m[j] + Sum(m - {j})
  {
  }

  /** Taking any key out of the map takes exactly its count out of the sum. */
  lemma {:induction false} SumRemove(m: map<string, nat>, k: string)
    requires k in m
    ensures Sum(m) == m[k] + Sum(m - {k})
    decreases |m.Keys|
  {
    SumChoice(m);
    var j :| j in m && Sum(m) == m[j] + Sum(m - {j});
    if j != k {
      var withoutJ := m - {j};
      var withoutK := m - {k};
      WithoutKey(m, j);
      WithoutKey(m, k);
      assert k in withoutJ && withoutJ[k] == m[k];
      assert j in withoutK && withoutK[j] == m[j];
      SumRemove(withoutJ, k);
      SumRemove(withoutK, j);
      RemoveBoth(m, j, k);
    }
  }

  lemma RemoveBoth(m: map<string, nat>, j: string, k: string)
    ensures m - {j} - {k} == m - {k} - {j}
  {
  }

  /** One merge adds exactly one to the sum of the counts. */
  lemma MergeSum(m: map<string, nat>, key: string)
    ensures Sum(Merge(m, key)) == Sum(m) + 1
  {
    var r := Merge(m, key);
    SumRemove(r, key);
    assert r - {key} == m - {key};
    if key in m {
      SumRemove(m, key);
    } else {
      assert m - {key} == m;
    }
  }

  // ---- Invariants of the handler ----

  /** What the fields always satisfy: every counted image holding a "loc right" is a
      counted image, and an image still open without one may yet count once more; no
      label key is empty. */
  predicate Consistent(st: Stats) {
    st.locRightCount + (if st.inside && !st.hasLocRight then 1 else 0) <= st.imageCount &&
    (st.hasLocRight ==> st.inside) &&
    "" !in st.labels
  }

  /** Every event keeps the handler consistent. */
  lemma HandleConsistent(st: Stats, e: Event)
    requires Consistent(st)
    ensures Consistent(Handle(st, e))
  {
    if e.End? && CountsLocRight(st, e.qName) {
      assert |Lower(e.qName)| == 12;
      assert !EqualsIgnoreCase("image", e.qName);
    }
  }

  lemma HandleConsistentIf(st: Stats, e: Event)
    ensures Consistent(st) ==> Consistent(Handle(st, e))
  {
    if Consistent(st) {
      HandleConsistent(st, e);
    }
  }

  /** What the end of an element does: the text buffer is emptied, no image is counted,
      a "loc right" localization is counted exactly when `CountsLocRight` says so and a
      label exactly when `CountedLabel` gives one; outside an image no counter moves; the
      end of an image, whatever its case, leaves the handler outside any image with the
      per-image flag cleared; and consistency is kept. */
  lemma EndEffects(st: Stats, qName: string)
    ensures Handle(st, End(qName)).text == "" && Handle(st, End(qName)).imageCount == st.imageCount
    ensures Handle(st, End(qName)).locRightCount ==
            st.locRightCount + (if CountsLocRight(st, qName) then 1 else 0)
    ensures CountedLabel(st, qName).Some? ==>
              Handle(st, End(qName)).labels == Merge(st.labels, CountedLabel(st, qName).value)
    ensures CountedLabel(st, qName).None? ==> Handle(st, End(qName)).labels == st.labels
    ensures !st.inside ==> Handle(st, End(qName)).locRightCount == st.locRightCount &&
                           Handle(st, End(qName)).labels == st.labels
    ensures EqualsIgnoreCase("image", qName) ==>
              !Handle(st, End(qName)).inside && !Handle(st, End(qName)).hasLocRight
    ensures Consistent(st) ==> Consistent(Handle(st, End(qName)))
  {
    HandleConsistentIf(st, End(qName));
  }

  /** Replaying any stream keeps the handler consistent; in particular no more images
      hold a "loc right" than there are images. */
  lemma {:induction false} RunConsistent(st: Stats, events: seq<Event>)
    requires Consistent(st)
    ensures Consistent(Run(st, events))
    ensures Run(st, events).locRightCount <= Run(st, events).imageCount
    decreases |events|
  {
    if events != [] {
      HandleConsistent(st, events[0]);
      RunConsistent(Handle(st, events[0]), events[1..]);
    }
  }

  /** imageCount counts the startElement events naming an image, ignoring case. */
  lemma {:induction false} RunImageCount(st: Stats, events: seq<Event>)
    ensures Run(st, events).imageCount == st.imageCount + ImageStarts(events)
    decreases |events|
  {
    if events != [] {
      RunImageCount(Handle(st, events[0]), events[1..]);
    }
  }

  /** A "loc right" localization counts at most once per image: while no new image
      starts, the count grows by at most one, and not at all once the current image has
      been counted or closed. */
  lemma {:induction false} LocRightOncePerImage(st: Stats, events: seq<Event>)
    requires forall k :: 0 <= k < |events| ==> !IsImageStart(events[k])
    ensures Run(st, events).locRightCount <=
            st.locRightCount + (if st.inside && !st.hasLocRight then 1 else 0)
    decreases |events|
  {
    if events != [] {
      var e := events[0];
      if e.End? && CountsLocRight(st, e.qName) {
        assert |Lower(e.qName)| == 12;
        assert !EqualsIgnoreCase("image", e.qName);
      }
      LocRightOncePerImage(Handle(st, e), events[1..]);
    }
  }

  /** One event changes the label map only by counting the label it counts, which is
      never empty. */
  lemma HandleLabels(st: Stats, e: Event)
    ensures Handle(st, e).labels == AddLabel(st.labels, LabelOf(st, e))
    ensures LabelOf(st, e).Some? ==> LabelOf(st, e).value != ""
  {
  }

  /** Each counted label adds one to its own count and nothing else: after a replay, a
      label's count is its count before plus the number of times it was counted. No key is
      ever the empty string. */
  lemma {:induction false} RunLabelCounts(st: Stats, events: seq<Event>)
    requires "" !in st.labels
    ensures "" !in Run(st, events).labels
    ensures forall k :: k in Run(st, events).labels <==>
                          k in st.labels || k in CountedLabels(st, events)
    ensures forall k :: k in Run(st, events).labels ==>
              Run(st, events).labels[k] ==
              (if k in st.labels then st.labels[k] else 0) + multiset(CountedLabels(st, events))[k]
    decreases |events|
  {
    if events != [] {
      var next := Handle(st, events[0]);
      HandleLabels(st, events[0]);
      assert CountedLabels(st, events) == Listed(LabelOf(st, events[0])) + CountedLabels(next, events[1..]);
      RunLabelCounts(next, events[1..]);
    }
  }

  /** The counts add up to the number of labels counted. */
  lemma {:induction false} RunLabelSum(st: Stats, events: seq<Event>)
    ensures Sum(Run(st, events).labels) == Sum(st.labels) + |CountedLabels(st, events)|
    decreases |events|
  {
    if events != [] {
      var next := Handle(st, events[0]);
      HandleLabels(st, events[0]);
      if LabelOf(st, events[0]).Some? {
        MergeSum(st.labels, LabelOf(st, events[0]).value);
      }
      RunLabelSum(next, events[1..]);
    }
  }

  /** From a fresh handler: imageCount is the number of image starts, there are no more
      "loc right" images than images, no label is empty, and the label counts add up to
      the number of labels counted. */
  lemma FromScratch(events: seq<Event>)
    ensures Consistent(Run(Initial, events))
    ensures Run(Initial, events).imageCount == ImageStarts(events)
    ensures Run(Initial, events).locRightCount <= Run(Initial, events).imageCount
    ensures "" !in Run(Initial, events).labels
    ensures Sum(Run(Initial, events).labels) == |CountedLabels(Initial, events)|
  {
    RunImageCount(Initial, events);
    RunConsistent(Initial, events);
    RunLabelCounts(Initial, events);
    RunLabelSum(Initial, events);
  }

  // ---- getTop10Labels ----

  /** Some key has the largest count. */
  lemma {:induction false} MaxKeyExists(m: map<string, nat>)
    requires m.Keys != {}
    ensures exists k :: k in m && forall j :: j in m ==> m[j] <= m[k]
    decreases |m.Keys|
  {
    var k :| k in m;
    var rest := m - {k};
    WithoutKey(m, k);
    var top := k;
    if rest.Keys != {} {
      MaxKeyExists(rest);
      var b :| b in rest && forall j :: j in rest ==> rest[j] <= rest[b];
      top := if m[b] < m[k] then k else b;
    }
    forall j | j in m
      ensures m[j] <= m[top]
    {
      if j != k {
        assert j in rest;
      }
    }
  }

  /** The first `n` entries of the map sorted by count, largest first (ties in no
      particular order, as the HashMap's iteration order leaves them). */
  ghost function TopLabels(m: map<string, nat>, n: nat): (r: seq<(string, nat)>)
    decreases n
  {
    if n == 0 || m.Keys == {} then []
    else
      MaxKeyExists(m);
      var k :| k in m && forall j :: j in m ==> m[j] <= m[k];
      [(k, m[k])] + TopLabels(m - {k}, n - 1)
  }

  /** The first entry of the top list has a largest count, and the rest is the top list
      of the other keys. */
  lemma TopLabelsUnfold(m: map<string, nat>, n: nat)
    requires n > 0 && m.Keys != {}
    ensures TopLabels(m, n) != [] && TopLabels(m, n)[0].0 in m
    ensures TopLabels(m, n)[0].1 == m[TopLabels(m, n)[0].0]
    ensures forall j :: j in m ==> m[j] <= TopLabels(m, n)[0].1
    ensures TopLabels(m, n)[1..] == TopLabels(m - {TopLabels(m, n)[0].0}, n - 1)
  {
  }

  /** The keys of `m` other than `k`, with their counts. */
  lemma WithoutKey(m: map<string, nat>, k: string)
    requires k in m
    ensures (m - {k}).Keys == m.Keys - {k} && |(m - {k}).Keys| == |m.Keys| - 1
    ensures forall j :: j in m - {k} ==> (m - {k})[j] == m[j]
  {
  }

  /** Each entry of the top list is an entry of the map, and no key appears twice. */
  predicate EntriesOf(r: seq<(string, nat)>, m: map<string, nat>) {
    (forall i :: 0 <= i < |r| ==> r[i].0 in m && m[r[i].0] == r[i].1) &&
    (forall i, j :: 0 <= i < j < |r| ==> r[i].0 != r[j].0)
  }

  /** The counts of the list never increase. */
  predicate NonIncreasing(r: seq<(string, nat)>) {
    forall i, j :: 0 <= i < j < |r| ==> r[i].1 >= r[j].1
  }

  /** No key of the map left out of the list has a larger count than one in the list. */
  predicate NoneLeftOutLarger(r: seq<(string, nat)>, m: map<string, nat>) {
    forall i, k :: 0 <= i < |r| && k in m && k !in Names(r) ==> m[k] <= r[i].1
  }

  /** The top list holds min(n, size) entries of the map, no key twice. */
  lemma {:induction false} TopLabelsEntries(m: map<string, nat>, n: nat)
    ensures |TopLabels(m, n)| == if n < |m.Keys| then n else |m.Keys|
    ensures EntriesOf(TopLabels(m, n), m)
    decreases n
  {
    if n != 0 && m.Keys != {} {
      TopLabelsUnfold(m, n);
      var r := TopLabels(m, n);
      var rest := m - {r[0].0};
      WithoutKey(m, r[0].0);
      TopLabelsEntries(rest, n - 1);
      var tail := r[1..];
      forall i | 0 <= i < |r|
        ensures r[i].0 in m && m[r[i].0] == r[i].1
      {
        if i > 0 {
          assert r[i] == tail[i - 1];
        }
      }
      forall i, j | 0 <= i < j < |r|
        ensures r[i].0 != r[j].0
      {
        assert r[j] == tail[j - 1] && r[j].0 in rest;
        if i > 0 {
          assert r[i] == tail[i - 1];
        }
      }
    }
  }

  /** The top list is sorted by count, largest first. */
  lemma {:induction false} TopLabelsSorted(m: map<string, nat>, n: nat)
    ensures NonIncreasing(TopLabels(m, n))
    decreases n
  {
    if n != 0 && m.Keys != {} {
      TopLabelsUnfold(m, n);
      var r := TopLabels(m, n);
      WithoutKey(m, r[0].0);
      TopLabelsEntries(m - {r[0].0}, n - 1);
      TopLabelsSorted(m - {r[0].0}, n - 1);
      forall i, j | 0 <= i < j < |r|
        ensures r[i].1 >= r[j].1
      {
        assert r[j] == r[1..][j - 1];
        if i > 0 {
          assert r[i] == r[1..][i - 1];
        }
      }
    }
  }

  /** The top list really is the top: a key it leaves out is never more frequent than a
      key it keeps. */
  lemma {:induction false} TopLabelsTop(m: map<string, nat>, n: nat)
    ensures NoneLeftOutLarger(TopLabels(m, n), m)
    decreases n
  {
    if n != 0 && m.Keys != {} {
      TopLabelsUnfold(m, n);
      var r := TopLabels(m, n);
      var rest := m - {r[0].0};
      WithoutKey(m, r[0].0);
      TopLabelsTop(rest, n - 1);
      assert r == [r[0]] + r[1..];
      NamesCons(r[0], r[1..]);
      forall i, k | 0 <= i < |r| && k in m && k !in Names(r)
        ensures m[k] <= r[i].1
      {
        if i > 0 {
          assert r[i] == r[1..][i - 1];
        }
      }
    }
  }

  /** The keys of a list of entries. */
  function Names(entries: seq<(string, nat)>): (r: set<string>)
    ensures forall i :: 0 <= i < |entries| ==> entries[i].0 in r
  {
    if entries == [] then {} else {entries[0].0} + Names(entries[1..])
  }

  lemma NamesCons(e: (string, nat), entries: seq<(string, nat)>)
    ensures Names([e] + entries) == {e.0} + Names(entries)
  {
    assert ([e] + entries)[1..] == entries;
  }

  /** The handler's fields, updated in place by the parser's callbacks. */
  class ImageHandler {
    var imageCount: nat
    var locRightCount: nat
    var labelFrequency: map<string, nat>
    var currentText: string
    var currentImageHasLocRight: bool
    var insideImage: bool

    /** The fields as a `Stats` value. */
    function State(): Stats
      reads this
    {
      Stats(imageCount, locRightCount, labelFrequency, currentText, currentImageHasLocRight, insideImage)
    }

    constructor()
      ensures State() == Initial && Consistent(State())
    {
      imageCount := 0;
      locRightCount := 0;
      labelFrequency := map[];
      currentText := "";
      currentImageHasLocRight := false;
      insideImage := false;
    }

    method StartElement(qName: string)
      modifies this
      ensures State() == Handle(old(State()), Start(qName))
      ensures currentText == ""
      ensures EqualsIgnoreCase("image", qName) ==>
                imageCount == old(imageCount) + 1 && insideImage && !currentImageHasLocRight
      ensures !EqualsIgnoreCase("image", qName) ==>
                imageCount == old(imageCount) && insideImage == old(insideImage) &&
                currentImageHasLocRight == old(currentImageHasLocRight)
      ensures locRightCount == old(locRightCount) && labelFrequency == old(labelFrequency)
      ensures old(Consistent(State())) ==> Consistent(State())
    {
      HandleConsistentIf(State(), Start(qName));
      currentText := "";
      if EqualsIgnoreCase("image", qName) {
        imageCount := imageCount + 1;
        currentImageHasLocRight := false;
        insideImage := true;
      }
    }

    method EndElement(qName: string)
      modifies this
      ensures State() == Handle(old(State()), End(qName))
      ensures currentText == "" && imageCount == old(imageCount)
      ensures locRightCount == old(locRightCount) + (if CountsLocRight(old(State()), qName) then 1 else 0)
      ensures CountedLabel(old(State()), qName).Some? ==>
                labelFrequency == Merge(old(labelFrequency), CountedLabel(old(State()), qName).value)
      ensures CountedLabel(old(State()), qName).None? ==> labelFrequency == old(labelFrequency)
      ensures !old(insideImage) ==> locRightCount == old(locRightCount) && labelFrequency == old(labelFrequency)
      ensures EqualsIgnoreCase("image", qName) ==> !insideImage && !currentImageHasLocRight
      ensures old(Consistent(State())) ==> Consistent(State())
    {
      EndEffects(State(), qName);
      var content := Trim(currentText);
      var element := Lower(qName);
      if insideImage && element == "localization" {
        if EqualsIgnoreCase("loc right", content) && !currentImageHasLocRight {
          locRightCount := locRightCount + 1;
          currentImageHasLocRight := true;
        }
      }
      if insideImage && element == "label" {
        if content != "" {
          labelFrequency := Merge(labelFrequency, content);
        }
      }
      if EqualsIgnoreCase("image", qName) {
        insideImage := false;
        currentImageHasLocRight := false;
      }
      currentText := "";
    }

    method Characters(text: string)
      modifies this
      ensures State() == Handle(old(State()), Event.Characters(text))
      ensures currentText == old(currentText) + text
      ensures imageCount == old(imageCount) && locRightCount == old(locRightCount) &&
              labelFrequency == old(labelFrequency)
      ensures old(Consistent(State())) ==> Consistent(State())
    {
      HandleConsistentIf(State(), Event.Characters(text));
      currentText := currentText + text;
    }

    method GetImageCount() returns (n: nat)
      ensures n == imageCount
    {
      n := imageCount;
    }

    method GetLocRightCount() returns (n: nat)
      ensures n == locRightCount
    {
      n := locRightCount;
    }

    /** The number of distinct labels seen. */
    method GetTotalUniqueLabels() returns (n: nat)
      ensures n == |labelFrequency.Keys|
    {
      n := |labelFrequency.Keys|;
    }

    /** The ten most frequent labels with their counts, most frequent first: ten of them,
        or all when there are fewer; no label left out is more frequent than one kept. */
    ghost function GetTop10Labels(): (r: seq<(string, nat)>)
      reads this
      ensures |r| == if |labelFrequency.Keys| < 10 then |labelFrequency.Keys| else 10
      ensures EntriesOf(r, labelFrequency) && NonIncreasing(r)
      ensures NoneLeftOutLarger(r, labelFrequency)
    {
      TopLabelsEntries(labelFrequency, 10);
      TopLabelsSorted(labelFrequency, 10);
      TopLabelsTop(labelFrequency, 10);
      TopLabels(labelFrequency, 10)
    }
  }
}
