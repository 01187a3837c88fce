/** Batched translation of a transcript (lib/openai.ts). The utterances are
    cut into windows of 100, each sent as up to five batches of 20; every batch
    becomes one numbered prompt, the numbered reply is parsed back line by line
    and aligned with the batch by position, and the results are written into
    the slots the batch came from. The chat-completion request is the only
    remote step: it is the `Oracle` parameter, whose `None` stands for every
    way the request can fail (network error, a non-OK status, a body that is
    not the expected JSON). */
module Translate {
  import opened Wrappers
  import opened Text
  import opened Types

  const BatchSize: nat := 20
  const ConcurrentBatches: nat := 5

  datatype Language = English | French

  /** The reply content for the batch of `language` that starts at the given
      index, or None when the request fails. */
  type Oracle = (Language, nat) -> Option<string>

  /** The half-open slot range `[start, end)` of one batch. */
  datatype Batch = Batch(start: nat, end: nat)

  function Min(a: int, b: int): int {
    if a <= b then a else b
  }

  // ---------------------------------------------------------------------------
  // Batch plan

  /** The inner loop over `j` for the window starting at `i`, stopping at the
      first batch that would start past the input. */
  function WindowBatches(n: nat, i: nat, j: nat): seq<Batch>
    decreases ConcurrentBatches - j
  {
    if j >= ConcurrentBatches then []
    else
      var startIdx := i + j * BatchSize;
      if startIdx >= n then []
      else [Batch(startIdx, Min(startIdx + BatchSize, n))] + WindowBatches(n, i, j + 1)
  }

  /** The outer loop over windows, from window start `i` on. */
  function WindowsFrom(n: nat, i: nat): seq<Batch>
    decreases n - i
  {
    if i >= n then []
    else WindowBatches(n, i, 0) + WindowsFrom(n, i + BatchSize * ConcurrentBatches)
  }

  /** Every batch `translateToLanguage` sends for `n` utterances, in loop order. */
  function BatchPlan(n: nat): seq<Batch> {
    WindowsFrom(n, 0)
  }

  /** The reference: consecutive batches of 20 from `s`, the last one short. */
  function Consecutive(n: nat, s: nat): seq<Batch>
    decreases n - s
  {
    if s >= n then [] else [Batch(s, Min(s + BatchSize, n))] + Consecutive(n, s + BatchSize)
  }

  lemma {:induction false} WindowIsConsecutive(n: nat, i: nat, j: nat)
    requires j <= ConcurrentBatches
    ensures WindowBatches(n, i, j) + Consecutive(n, i + BatchSize * ConcurrentBatches)
         == Consecutive(n, i + j * BatchSize)
    decreases ConcurrentBatches - j
  {
    var s := i + j * BatchSize;
    if j < ConcurrentBatches && s < n {
      WindowIsConsecutive(n, i, j + 1);
      assert s + BatchSize == i + (j + 1) * BatchSize;
    } else if j < ConcurrentBatches {
      assert Consecutive(n, i + BatchSize * ConcurrentBatches) == [];
    }
  }

  lemma {:induction false} WindowsAreConsecutive(n: nat, i: nat)
    ensures WindowsFrom(n, i) == Consecutive(n, i)
    decreases n - i
  {
    if i < n {
      WindowsAreConsecutive(n, i + BatchSize * ConcurrentBatches);
      WindowIsConsecutive(n, i, 0);
    }
  }

  lemma {:induction false} ConsecutiveShape(n: nat, s: nat)
    requires s <= n
    ensures var c := Consecutive(n, s);
      && |c| == (n - s + BatchSize - 1) / BatchSize
      && forall k :: 0 <= k < |c| ==>
           c[k] == Batch(s + k * BatchSize, Min(s + k * BatchSize + BatchSize, n))
           && s + k * BatchSize < n
    decreases n - s
  {
    if s < n {
      var c := Consecutive(n, s);
      if s + BatchSize <= n {
        ConsecutiveShape(n, s + BatchSize);
        var tail := Consecutive(n, s + BatchSize);
        assert forall k :: 1 <= k < |c| ==> c[k] == tail[k - 1];
      } else {
        assert Consecutive(n, s + BatchSize) == [];
        assert |c| == 1;
      }
    }
  }

  /** Batch `k` of the plan covers `[20k, min(20k + 20, n))`, and there are
      exactly as many batches as it takes to reach `n`. */
  lemma BatchPlanShape(n: nat)
    ensures var p := BatchPlan(n);
      && |p| == (n + BatchSize - 1) / BatchSize
      && forall k :: 0 <= k < |p| ==>
           p[k] == Batch(k * BatchSize, Min(k * BatchSize + BatchSize, n)) && k * BatchSize < n
  {
    WindowsAreConsecutive(n, 0);
    ConsecutiveShape(n, 0);
  }

  /** The batch that holds slot `x`. */
  function BatchOf(x: nat): nat {
    x / BatchSize
  }

  lemma BatchOfBounds(x: nat, k: nat)
    ensures k * BatchSize <= x < k * BatchSize + BatchSize <==> k == BatchOf(x)
  {
  }

  /** The plan partitions `[0, n)`: every batch is non-empty and at most 20
      long, each starts where the previous ended, the first at 0 and the last
      ends at `n`; slot `x` lies in batch `x / 20` and in no other. */
  lemma BatchPlanPartition(n: nat)
    ensures var p := BatchPlan(n);
      && (forall k :: 0 <= k < |p| ==> p[k].start < p[k].end <= p[k].start + BatchSize && p[k].end <= n)
      && (forall k :: 0 < k < |p| ==> p[k].start == p[k - 1].end)
      && (n == 0 <==> p == [])
      && (p != [] ==> p[0].start == 0 && p[|p| - 1].end == n)
      && (forall x :: 0 <= x < n ==> BatchOf(x) < |p|)
      && (forall x, k :: 0 <= x < n && 0 <= k < |p| ==>
            (p[k].start <= x < p[k].end <==> k == BatchOf(x)))
  {
    var p := BatchPlan(n);
    BatchPlanShape(n);
    forall k | 0 < k < |p| ensures p[k].start == p[k - 1].end {
      assert (k - 1) * BatchSize + BatchSize == k * BatchSize;
    }
    if p != [] {
      var last := |p| - 1;
      assert last * BatchSize + BatchSize >= n;
    }
    forall x, k | 0 <= x < n && 0 <= k < |p|
      ensures p[k].start <= x < p[k].end <==> k == BatchOf(x)
    {
      BatchOfBounds(x, k);
    }
  }

  // ---------------------------------------------------------------------------
  // Prompt and reply

  /** Prompt line `i`: its 1-based number, a dot, a space and the text. */
  function PromptLine(i: nat, text: string): string {
    NatToString(i + 1) + ". " + text
  }

  /** The texts numbered from 1, one per line. */
  function Numbered(texts: seq<string>): seq<string> {
    seq(|texts|, i requires 0 <= i < |texts| => PromptLine(i, texts[i]))
  }

  /** `textToTranslate`: the batch's texts numbered and joined by newlines. */
  function BuildPrompt(batch: seq<Utterance>): string {
    Join(Numbered(Texts(batch)), '\n')
  }

  /** How many decimal digits `s` starts with. */
  function LeadingDigits(s: string): (k: nat)
    ensures k <= |s| && AllDigits(s[..k]) && (k < |s| ==> !IsDigit(s[k]))
  {
    if |s| > 0 && IsDigit(s[0]) then
      var k := 1 + LeadingDigits(s[1..]);
      assert forall i :: 1 <= i < k ==> s[..k][i] == s[1..][..k - 1][i - 1];
      k
    else 0
  }

  /** The leading-number pattern removal: when the line starts with one or
      more digits and a dot, those and the white space after the dot go. */
  function StripNumber(line: string): string {
    var k := LeadingDigits(line);
    if 1 <= k < |line| && line[k] == '.' then
      TrimStart(line[k + 1..])
    else line
  }

  /** `.filter(line => line.trim())`. */
  function KeepNonBlank(lines: seq<string>): (r: seq<string>)
    ensures |r| <= |lines|
    ensures forall i :: 0 <= i < |r| ==> Trim(r[i]) != []
  {
    if lines == [] then []
    else if Trim(lines[0]) != [] then [lines[0]] + KeepNonBlank(lines[1..])
    else KeepNonBlank(lines[1..])
  }

  /** The filter works line by line: the kept lines of a concatenation are
      the kept lines of each part, in order. */
  lemma {:induction false} KeepNonBlankAppend(a: seq<string>, b: seq<string>)
    ensures KeepNonBlank(a + b) == KeepNonBlank(a) + KeepNonBlank(b)
    decreases |a|
  {
    if a == [] {
      assert a + b == b;
    } else {
      assert (a + b)[0] == a[0];
      assert (a + b)[1..] == a[1..] + b;
      KeepNonBlankAppend(a[1..], b);
    }
  }

  /** A single line is kept exactly when it is not blank. */
  lemma KeepNonBlankOne(line: string)
    ensures KeepNonBlank([line]) == if Trim(line) != [] then [line] else []
  {
    assert [line][1..] == [];
  }

  /** The reply split into lines, blank lines dropped, each line with its
      number stripped and trimmed. */
  function ParseNumbered(content: string): (r: seq<string>)
  {
    var kept := KeepNonBlank(Split(content, '\n'));
    seq(|kept|, i requires 0 <= i < |kept| => Trim(StripNumber(kept[i])))
  }

  /** `translateBatch` given the outcome of its request: on failure the
      original texts; otherwise entry `i` of the parsed reply, or the original
      text where that entry is missing or empty. One string per utterance,
      never empty unless the original text is. */
  function TranslateBatch(batch: seq<Utterance>, reply: Option<string>): (r: seq<string>)
    ensures |r| == |batch|
    ensures reply.None? ==> r == Texts(batch)
    ensures forall i :: 0 <= i < |batch| ==> (r[i] == [] ==> batch[i].text == [])
  {
    match reply
    case None => Texts(batch)
    case Some(content) =>
      var ts := ParseNumbered(content);
      seq(|batch|, i requires 0 <= i < |batch| =>
        if i < |ts| && ts[i] != [] then ts[i] else batch[i].text)
  }

  predicate NoNewline(batch: seq<Utterance>) {
    forall i :: 0 <= i < |batch| ==> '\n' !in batch[i].text
  }

  lemma {:induction false} LeadingDigitsOf(d: string, rest: string)
    requires AllDigits(d) && (rest == [] || !IsDigit(rest[0]))
    ensures LeadingDigits(d + rest) == |d|
    decreases |d|
  {
    if d != [] {
      assert (d + rest)[1..] == d[1..] + rest;
      LeadingDigitsOf(d[1..], rest);
    } else {
      assert d + rest == rest;
    }
  }

  /** Removing the number from a line `d. text` leaves `text` without its
      leading white space. */
  lemma StripNumberOf(d: string, text: string)
    requires |d| >= 1 && AllDigits(d)
    ensures StripNumber(d + ". " + text) == TrimStart(text)
  {
    var line := d + ". " + text;
    assert line == d + ("." + (" " + text));
    LeadingDigitsOf(d, "." + (" " + text));
    assert line[|d|] == '.';
    assert line[|d| + 1..] == " " + text;
  }

  lemma PromptLineParses(i: nat, text: string)
    requires '\n' !in text
    ensures '\n' !in PromptLine(i, text)
    ensures Trim(PromptLine(i, text)) != []
    ensures Trim(StripNumber(PromptLine(i, text))) == Trim(text)
  {
    var d := NatToString(i + 1);
    var line := PromptLine(i, text);
    assert line == d + (". " + text);
    assert line[0] == d[0];
    assert !AllSpace(line) by {
      assert !IsSpace(line[0]);
    }
    assert '\n' !in line by {
      forall j | 0 <= j < |line| ensures line[j] != '\n' {
        if j < |d| {
          assert line[j] == d[j];
        } else if j >= |d| + 2 {
          assert line[j] == text[j - |d| - 2];
        }
      }
    }
    TrimBlank(line);
    StripNumberOf(d, text);
    TrimStartIdempotent(text);
  }

  lemma {:induction false} KeepAll(lines: seq<string>)
    requires forall i :: 0 <= i < |lines| ==> Trim(lines[i]) != []
    ensures KeepNonBlank(lines) == lines
  {
    if lines != [] {
      KeepAll(lines[1..]);
    }
  }

  /** Joining single, non-blank lines and parsing them back gives each line
      with its number stripped, trimmed. */
  lemma ParseJoined(lines: seq<string>)
    requires |lines| >= 1
    requires forall i :: 0 <= i < |lines| ==> '\n' !in lines[i] && Trim(lines[i]) != []
    ensures var parsed := ParseNumbered(Join(lines, '\n'));
      |parsed| == |lines| && forall i :: 0 <= i < |lines| ==> parsed[i] == Trim(StripNumber(lines[i]))
  {
    SplitJoin(lines, '\n');
    KeepAll(lines);
  }

  /** Numbering texts and parsing the joined lines back gives each text
      trimmed. */
  lemma ParseNumberedRoundTrip(texts: seq<string>)
    requires |texts| >= 1 && forall i :: 0 <= i < |texts| ==> '\n' !in texts[i]
    ensures var parsed := ParseNumbered(Join(Numbered(texts), '\n'));
      |parsed| == |texts| && forall i :: 0 <= i < |texts| ==> parsed[i] == Trim(texts[i])
  {
    var lines := Numbered(texts);
    forall i | 0 <= i < |texts|
      ensures '\n' !in lines[i] && Trim(lines[i]) != []
      ensures Trim(StripNumber(lines[i])) == Trim(texts[i])
    {
      PromptLineParses(i, texts[i]);
    }
    ParseJoined(lines);
  }

  /** Parsing the prompt itself gives back each utterance's trimmed text. */
  lemma ParsePromptRoundTrip(batch: seq<Utterance>)
    requires |batch| >= 1 && NoNewline(batch)
    ensures var parsed := ParseNumbered(BuildPrompt(batch));
      |parsed| == |batch| && forall i :: 0 <= i < |batch| ==> parsed[i] == Trim(batch[i].text)
  {
    ParseNumberedRoundTrip(Texts(batch));
  }

  /** A reply numbered line by line the way the prompt is, with one line per
      translation, is read slot by slot: slot `i` gets the trimmed `i`-th
      line unless that line is blank or missing, where the original text
      stays; lines beyond the batch are ignored. */
  lemma NumberedReply(batch: seq<Utterance>, lines: seq<string>)
    requires |lines| >= 1 && forall i :: 0 <= i < |lines| ==> '\n' !in lines[i]
    ensures var r := TranslateBatch(batch, Some(Join(Numbered(lines), '\n')));
      forall i :: 0 <= i < |batch| ==>
        r[i] == if i < |lines| && Trim(lines[i]) != [] then Trim(lines[i]) else batch[i].text
  {
    ParseNumberedRoundTrip(lines);
  }

  /** An empty reply content, which is also what a reply without a message
      gives, leaves every text as it is. */
  lemma EmptyReply(batch: seq<Utterance>)
    ensures TranslateBatch(batch, Some("")) == Texts(batch)
  {
    assert Split("", '\n') == [""];
    KeepNonBlankOne("");
    assert Trim("") == [];
  }

  /** A reply that echoes the prompt yields every utterance's trimmed text,
      or its original text where that is blank. */
  lemma EchoReply(batch: seq<Utterance>)
    requires |batch| >= 1 && NoNewline(batch)
    ensures var r := TranslateBatch(batch, Some(BuildPrompt(batch)));
      forall i :: 0 <= i < |batch| ==> r[i] == if Trim(batch[i].text) != [] then Trim(batch[i].text) else batch[i].text
  {
    NumberedReply(batch, Texts(batch));
  }

  // ---------------------------------------------------------------------------
  // Writing results back

  /** One batch's translations, to be stored from slot `start` on. */
  datatype Write = Write(start: nat, values: seq<string>)

  predicate Covers(w: Write, x: int) {
    w.start <= x < w.start + |w.values|
  }

  /** `results[startIdx + idx] = translation` for every translation of a batch. */
  function Store(results: seq<Option<string>>, w: Write): (r: seq<Option<string>>)
    requires w.start + |w.values| <= |results|
    ensures |r| == |results|
    ensures forall x :: 0 <= x < |r| ==> r[x] == if Covers(w, x) then Some(w.values[x - w.start]) else results[x]
  {
    seq(|results|, x requires 0 <= x < |results| =>
      if Covers(w, x) then Some(w.values[x - w.start]) else results[x])
  }

  predicate InBounds(ws: seq<Write>, n: nat) {
    forall t :: 0 <= t < |ws| ==> ws[t].start + |ws[t].values| <= n
  }

  /** No two writes touch the same slot. */
  ghost predicate DisjointWrites(ws: seq<Write>) {
    forall t, u, x :: 0 <= t < |ws| && 0 <= u < |ws| && t != u && Covers(ws[t], x) ==> !Covers(ws[u], x)
  }

  /** The writes applied one after another, in the order given. */
  function ApplyWrites(results: seq<Option<string>>, ws: seq<Write>): (r: seq<Option<string>>)
    requires InBounds(ws, |results|)
    ensures |r| == |results|
    decreases |ws|
  {
    if ws == [] then results else ApplyWrites(Store(results, ws[0]), ws[1..])
  }

  /** After disjoint writes a slot holds the value of the write that covers
      it. */
  lemma {:induction false} ApplyWritesCovered(results: seq<Option<string>>, ws: seq<Write>, t: nat, x: nat)
    requires InBounds(ws, |results|) && DisjointWrites(ws) && x < |results|
    requires t < |ws| && Covers(ws[t], x)
    ensures ApplyWrites(results, ws)[x] == Some(ws[t].values[x - ws[t].start])
    decreases |ws|
  {
    var r1 := Store(results, ws[0]);
    if t == 0 {
      ApplyWritesUncovered(r1, ws[1..], x);
    } else {
      assert ws[1..][t - 1] == ws[t];
      ApplyWritesCovered(r1, ws[1..], t - 1, x);
    }
  }

  /** A slot no write covers keeps its old value. */
  lemma {:induction false} ApplyWritesUncovered(results: seq<Option<string>>, ws: seq<Write>, x: nat)
    requires InBounds(ws, |results|) && x < |results|
    requires forall t :: 0 <= t < |ws| ==> !Covers(ws[t], x)
    ensures ApplyWrites(results, ws)[x] == results[x]
    decreases |ws|
  {
    if ws != [] {
      assert !Covers(ws[0], x);
      var r1 := Store(results, ws[0]);
      assert forall t :: 0 <= t < |ws| - 1 ==> ws[1..][t] == ws[t + 1];
      ApplyWritesUncovered(r1, ws[1..], x);
    }
  }

  /** Because the writes are disjoint, the order in which the batches finish
      does not change the results. */
  lemma WriteOrderIrrelevant(results: seq<Option<string>>, ws1: seq<Write>, ws2: seq<Write>)
    requires InBounds(ws1, |results|) && InBounds(ws2, |results|)
    requires DisjointWrites(ws1) && DisjointWrites(ws2)
    requires forall w :: w in ws1 <==> w in ws2
    ensures ApplyWrites(results, ws1) == ApplyWrites(results, ws2)
  {
    var r1 := ApplyWrites(results, ws1);
    var r2 := ApplyWrites(results, ws2);
    forall x | 0 <= x < |results| ensures r1[x] == r2[x] {
      if t :| 0 <= t < |ws1| && Covers(ws1[t], x) {
        assert ws1[t] in ws2;
        var u :| 0 <= u < |ws2| && ws2[u] == ws1[t];
        ApplyWritesCovered(results, ws1, t, x);
        ApplyWritesCovered(results, ws2, u, x);
      } else {
        forall u | 0 <= u < |ws2| ensures !Covers(ws2[u], x) {
          assert ws2[u] in ws1;
        }
        ApplyWritesUncovered(results, ws1, x);
        ApplyWritesUncovered(results, ws2, x);
      }
    }
  }

  /** The write each planned batch makes, in plan order. */
  function PlanWrites(us: seq<Utterance>, language: Language, oracle: Oracle): (ws: seq<Write>)
    ensures |ws| == |BatchPlan(|us|)|
  {
    var p := BatchPlan(|us|);
    BatchPlanPartition(|us|);
    seq(|p|, k requires 0 <= k < |p| =>
      Write(p[k].start, TranslateBatch(us[p[k].start..p[k].end], oracle(language, p[k].start))))
  }

  /** Write `k` stores, from slot `20k` on, what the request for the batch
      `[20k, min(20k + 20, n))` gives. */
  lemma PlanWriteAt(us: seq<Utterance>, language: Language, oracle: Oracle, k: nat)
    requires k < |BatchPlan(|us|)|
    ensures var s := k * BatchSize;
      var e := Min(s + BatchSize, |us|);
      && s < e <= |us|
      && PlanWrites(us, language, oracle)[k] == Write(s, TranslateBatch(us[s..e], oracle(language, s)))
  {
    BatchPlanShape(|us|);
  }

  /** `n` slots with no translation yet. */
  function Unfilled(n: nat): (r: seq<Option<string>>)
    ensures |r| == n && forall x :: 0 <= x < n ==> r[x] == None
  {
    seq(n, _ => None)
  }

  /** `translateToLanguage`: the batches' writes into an array of `n` empty
      slots. */
  function TranslateToLanguage(us: seq<Utterance>, language: Language, oracle: Oracle): seq<Option<string>>
  {
    var ws := PlanWrites(us, language, oracle);
    PlanWritesFollowPlan(us, language, oracle);
    PlannedWritesCover(ws, |us|);
    ApplyWrites(Unfilled(|us|), ws)
  }

  /** Writes laid out as the plan for `n` slots lays out its batches. */
  predicate FollowsPlan(ws: seq<Write>, n: nat) {
    var p := BatchPlan(n);
    |ws| == |p| && forall k :: 0 <= k < |p| ==> ws[k].start == p[k].start && |ws[k].values| == p[k].end - p[k].start
  }

  lemma PlanWritesFollowPlan(us: seq<Utterance>, language: Language, oracle: Oracle)
    ensures FollowsPlan(PlanWrites(us, language, oracle), |us|)
  {
    var ws := PlanWrites(us, language, oracle);
    var p := BatchPlan(|us|);
    BatchPlanShape(|us|);
    forall k | 0 <= k < |p| ensures ws[k].start == p[k].start && |ws[k].values| == p[k].end - p[k].start {
      PlanWriteAt(us, language, oracle, k);
    }
  }

  /** Writes that follow the plan are disjoint and together fill every slot. */
  lemma PlannedWritesCover(ws: seq<Write>, n: nat)
    requires FollowsPlan(ws, n)
    ensures InBounds(ws, n) && DisjointWrites(ws)
    ensures forall x :: 0 <= x < n ==> BatchOf(x) < |ws| && Covers(ws[BatchOf(x)], x)
  {
    var p := BatchPlan(n);
    BatchPlanPartition(n);
    forall t, u, x | 0 <= t < |ws| && 0 <= u < |ws| && t != u && Covers(ws[t], x)
      ensures !Covers(ws[u], x)
    {
      assert t == BatchOf(x);
    }
  }

  /** With writes that follow the plan, slot `x` holds entry `x - s` of the
      write for the batch starting at `s = 20 * (x / 20)`. */
  lemma PlannedSlot(ws: seq<Write>, n: nat, x: nat)
    requires FollowsPlan(ws, n) && x < n
    ensures InBounds(ws, n) && BatchOf(x) < |ws|
    ensures ws[BatchOf(x)].start == BatchOf(x) * BatchSize
    ensures x - BatchOf(x) * BatchSize < |ws[BatchOf(x)].values|
    ensures ApplyWrites(Unfilled(n), ws)[x] == Some(ws[BatchOf(x)].values[x - BatchOf(x) * BatchSize])
  {
    BatchPlanShape(n);
    PlannedWritesCover(ws, n);
    ApplyWritesCovered(Unfilled(n), ws, BatchOf(x), x);
  }

  lemma SlotFromPlan(us: seq<Utterance>, language: Language, oracle: Oracle, x: nat)
    requires x < |us|
    ensures BatchOf(x) < |PlanWrites(us, language, oracle)|
    ensures x - BatchOf(x) * BatchSize < |PlanWrites(us, language, oracle)[BatchOf(x)].values|
    ensures TranslateToLanguage(us, language, oracle)[x]
         == Some(PlanWrites(us, language, oracle)[BatchOf(x)].values[x - BatchOf(x) * BatchSize])
  {
    PlanWritesFollowPlan(us, language, oracle);
    PlannedSlot(PlanWrites(us, language, oracle), |us|, x);
  }

  lemma SlotAligned(us: seq<Utterance>, language: Language, oracle: Oracle, x: nat)
    requires x < |us|
    ensures var s := BatchOf(x) * BatchSize;
      var e := Min(s + BatchSize, |us|);
      && s <= x < e <= |us|
      && TranslateToLanguage(us, language, oracle)[x] == Some(TranslateBatch(us[s..e], oracle(language, s))[x - s])
  {
    BatchOfBounds(x, BatchOf(x));
    SlotFromPlan(us, language, oracle, x);
    PlanWriteAt(us, language, oracle, BatchOf(x));
  }

  /** Every slot gets filled: slot `x` holds entry `x - s` of the batch that
      starts at `s = 20 * (x / 20)` and ends at `min(s + 20, n)`. */
  lemma TranslateToLanguageAligned(us: seq<Utterance>, language: Language, oracle: Oracle)
    ensures var r := TranslateToLanguage(us, language, oracle);
      && |r| == |us|
      && forall x :: 0 <= x < |us| ==>
           var s := BatchOf(x) * BatchSize;
           var e := Min(s + BatchSize, |us|);
           s <= x < e <= |us| &&
           r[x] == Some(TranslateBatch(us[s..e], oracle(language, s))[x - s])
  {
    forall x | 0 <= x < |us|
      ensures var s := BatchOf(x) * BatchSize;
        var e := Min(s + BatchSize, |us|);
        && s <= x < e <= |us|
        && TranslateToLanguage(us, language, oracle)[x] == Some(TranslateBatch(us[s..e], oracle(language, s))[x - s])
    {
      SlotAligned(us, language, oracle, x);
    }
  }

  // ---------------------------------------------------------------------------
  // Shaping the utterances

  /** `translations[index] || utterance.text`. */
  function OrText(t: Option<string>, text: string): (r: string)
    ensures t.Some? && t.value != [] ==> r == t.value
    ensures !(t.Some? && t.value != []) ==> r == text
  {
    if t.Some? && t.value != [] then t.value else text
  }

  function WithTranslations(u: Utterance, en: string, fr: string): Utterance {
    u.(translations := Some(Translations(Some(en), Some(fr))))
  }

  /** `translateUtterances`: both languages translated, each utterance kept
      as it is except for its `translations`, which falls back to the text
      where a translation is missing or empty. */
  function TranslateUtterances(us: seq<Utterance>, oracle: Oracle): (r: seq<Utterance>)
    ensures |r| == |us|
  {
    var en := TranslateToLanguage(us, English, oracle);
    var fr := TranslateToLanguage(us, French, oracle);
    TranslateToLanguageAligned(us, English, oracle);
    TranslateToLanguageAligned(us, French, oracle);
    seq(|us|, i requires 0 <= i < |us| =>
      WithTranslations(us[i], OrText(en[i], us[i].text), OrText(fr[i], us[i].text)))
  }

  /** The catch branch of `translateUtterances`: both translations set to the text. */
  function UntranslatedFallback(us: seq<Utterance>): (r: seq<Utterance>)
    ensures |r| == |us|
    ensures forall i :: 0 <= i < |us| ==> r[i] == WithTranslations(us[i], us[i].text, us[i].text)
  {
    seq(|us|, i requires 0 <= i < |us| => WithTranslations(us[i], us[i].text, us[i].text))
  }

  /** Every utterance keeps all its fields but `translations`; each language's
      entry is the aligned batch result for that utterance, or the text when
      that result is empty. */
  lemma TranslateUtterancesShape(us: seq<Utterance>, oracle: Oracle)
    ensures var r := TranslateUtterances(us, oracle);
      forall i :: 0 <= i < |us| ==>
        var s := BatchOf(i) * BatchSize;
        var e := Min(s + BatchSize, |us|);
        && s <= i < e <= |us|
        && r[i].(translations := us[i].translations) == us[i]
        && r[i].translations == Some(Translations(
             Some(TranslateBatch(us[s..e], oracle(English, s))[i - s]),
             Some(TranslateBatch(us[s..e], oracle(French, s))[i - s])))
  {
    forall i | 0 <= i < |us|
      ensures var s := BatchOf(i) * BatchSize;
        var e := Min(s + BatchSize, |us|);
        && s <= i < e <= |us|
        && TranslateUtterances(us, oracle)[i].(translations := us[i].translations) == us[i]
        && TranslateUtterances(us, oracle)[i].translations == Some(Translations(
             Some(TranslateBatch(us[s..e], oracle(English, s))[i - s]),
             Some(TranslateBatch(us[s..e], oracle(French, s))[i - s])))
    {
      TranslatedSlot(us, English, oracle, i);
      TranslatedSlot(us, French, oracle, i);
    }
  }

  /** One language's text for utterance `i` after the fallback: the slot of
      its own batch, at its own offset. */
  lemma TranslatedSlot(us: seq<Utterance>, language: Language, oracle: Oracle, i: nat)
    requires i < |us|
    ensures var s := BatchOf(i) * BatchSize;
      var e := Min(s + BatchSize, |us|);
      && s <= i < e <= |us|
      && |TranslateToLanguage(us, language, oracle)| == |us|
      && OrText(TranslateToLanguage(us, language, oracle)[i], us[i].text)
         == TranslateBatch(us[s..e], oracle(language, s))[i - s]
  {
    TranslateToLanguageAligned(us, language, oracle);
    var s := BatchOf(i) * BatchSize;
    var e := Min(s + BatchSize, |us|);
    assert us[s..e][i - s] == us[i];
    OrTextKeepsSlot(us[s..e], oracle(language, s), i - s);
  }

  /** The `|| utterance.text` fallback never changes a batch's slot: a slot
      is empty only when the utterance's own text is. */
  lemma OrTextKeepsSlot(batch: seq<Utterance>, reply: Option<string>, i: nat)
    requires i < |batch|
    ensures OrText(Some(TranslateBatch(batch, reply)[i]), batch[i].text) == TranslateBatch(batch, reply)[i]
  {
  }

  /** When every request fails, the result is the same as the catch branch's. */
  lemma AllRequestsFail(us: seq<Utterance>, oracle: Oracle)
    requires forall l, s :: oracle(l, s) == None
    ensures TranslateUtterances(us, oracle) == UntranslatedFallback(us)
  {
    TranslateUtterancesShape(us, oracle);
    var r := TranslateUtterances(us, oracle);
    forall i | 0 <= i < |us| ensures r[i] == WithTranslations(us[i], us[i].text, us[i].text) {
      var s := BatchOf(i) * BatchSize;
      var e := Min(s + BatchSize, |us|);
      assert TranslateBatch(us[s..e], None)[i - s] == us[s..e][i - s].text;
    }
  }
}
