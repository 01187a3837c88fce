/** The transcript player's pure logic (components/TranscriptionPlayer.tsx):
    how each word is styled at the current playback time, the `m:ss` clock
    labels, and the play/pause state kept beside the audio element. The shown
    player keeps no word cursor: every render re-tests every word against the
    current time. */
module Player {
  import opened Text
  import opened Types

  // ---------------------------------------------------------------------------
  // Word highlighting

  /** `isCurrentWord`: the word's half-open interval `[start, end)` holds `t`. */
  predicate IsCurrentWord(w: Word, t: real) {
    t >= w.start && t < w.end
  }

  /** `isPastWord`: playback has reached the word's end. */
  predicate IsPastWord(w: Word, t: real) {
    t >= w.end
  }

  /** The three renderings of a word. */
  datatype WordStyle = Current | Past | Upcoming

  /** The nested choice of the render: current first, then past, else upcoming.
      Exactly one style applies, and it is decided by where `t` lies against
      the word's bounds. */
  function Style(w: Word, t: real): (s: WordStyle)
    ensures s == Current <==> w.start <= t < w.end
    ensures s == Past <==> w.end <= t
    ensures s == Upcoming <==> t < w.start && t < w.end
  {
    if IsCurrentWord(w, t) then Current
    else if IsPastWord(w, t) then Past
    else Upcoming
  }

  /** The styles of every word of every utterance, as rendered. */
  function Styles(us: seq<Utterance>, t: real): (r: seq<seq<WordStyle>>)
    ensures |r| == |us|
    ensures forall i :: 0 <= i < |us| ==> |r[i]| == |us[i].words|
    ensures forall i, j :: 0 <= i < |us| && 0 <= j < |us[i].words| ==> r[i][j] == Style(us[i].words[j], t)
  {
    seq(|us|, i requires 0 <= i < |us| =>
      seq(|us[i].words|, j requires 0 <= j < |us[i].words| => Style(us[i].words[j], t)))
  }

  /** A word that is past stays past as playback moves forward. */
  lemma PastIsMonotone(w: Word, t: real, t': real)
    requires IsPastWord(w, t) && t <= t'
    ensures IsPastWord(w, t') && !IsCurrentWord(w, t')
  {
  }

  /** Words in playback order: each well formed, none starting before the
      previous one ends. */
  predicate Ordered(words: seq<Word>) {
    && (forall i :: 0 <= i < |words| ==> words[i].start <= words[i].end)
    && (forall i, j :: 0 <= i < j < |words| ==> words[i].end <= words[j].start)
  }

  /** Words that pairwise do not overlap, in any order. */
  predicate Disjoint(words: seq<Word>) {
    forall i, j :: 0 <= i < |words| && 0 <= j < |words| && i != j ==>
      words[i].end <= words[j].start || words[j].end <= words[i].start
  }

  /** With non-overlapping words at most one word is current at any time. */
  lemma AtMostOneCurrent(words: seq<Word>, t: real, i: nat, j: nat)
    requires Disjoint(words)
    requires i < |words| && j < |words|
    requires IsCurrentWord(words[i], t) && IsCurrentWord(words[j], t)
    ensures i == j
  {
  }

  function Rank(s: WordStyle): nat {
    match s
    case Past => 0
    case Current => 1
    case Upcoming => 2
  }

  /** Over words in playback order the rendering reads: past words, then at
      most one current word, then upcoming words. */
  lemma StylesInOrder(words: seq<Word>, t: real)
    requires Ordered(words)
    ensures forall i, j :: 0 <= i < j < |words| ==> Rank(Style(words[i], t)) <= Rank(Style(words[j], t))
    ensures forall i, j :: 0 <= i < j < |words| ==> !(Style(words[i], t) == Current && Style(words[j], t) == Current)
  {
    forall i, j | 0 <= i < j < |words|
      ensures Rank(Style(words[i], t)) <= Rank(Style(words[j], t))
    {
      assert words[i].end <= words[j].start <= words[j].end;
    }
  }

  /** Each rendered line whose words are in playback order reads past words,
      then at most one current word, then upcoming words. */
  lemma StylesRead(us: seq<Utterance>, t: real, i: nat)
    requires i < |us| && Ordered(us[i].words)
    ensures var line := Styles(us, t)[i];
      && |line| == |us[i].words|
      && (forall j, k :: 0 <= j < k < |line| ==> Rank(line[j]) <= Rank(line[k]))
      && (forall j, k :: 0 <= j < k < |line| ==> !(line[j] == Current && line[k] == Current))
  {
    StylesInOrder(us[i].words, t);
  }

  // ---------------------------------------------------------------------------
  // Clock labels

  /** `Math.trunc`. */
  function Trunc(x: real): int {
    if x >= 0.0 then x.Floor else -((-x).Floor)
  }

  /** JavaScript's `%` on numbers: the remainder of truncating division,
      which takes the sign of the dividend. */
  function JsRem(x: real, y: real): real
    requires y != 0.0
  {
    x - y * (Trunc(x / y) as real)
  }

  /** `formatTime`: whole minutes, a colon and the seconds within the minute
      padded to two characters (see FormatTimeDigits). */
  function FormatTime(seconds: real): string
  {
    ClockLabel((seconds / 60.0).Floor, JsRem(seconds, 60.0).Floor)
  }

  /** The label for a minute count and a second count. */
  function ClockLabel(mins: int, secs: int): string
  {
    IntToString(mins) + ":" + PadStart(IntToString(secs), 2, '0')
  }

  /** `r` reads as `m:ss` for `total` whole seconds: decimal minutes without
      leading zeros, a colon, and two digits below 60. */
  predicate IsClockLabel(r: string, total: int) {
    && |r| >= 4 && r[|r| - 3] == ':'
    && AllDigits(r[..|r| - 3]) && AllDigits(r[|r| - 2..])
    && (r[0] == '0' ==> |r| == 4)
    && DigitsValue(r[|r| - 2..]) < 60
    && DigitsValue(r[..|r| - 3]) * 60 + DigitsValue(r[|r| - 2..]) == total
  }

  /** For a non-negative time the label gives the whole seconds elapsed. */
  lemma FormatTimeDigits(seconds: real)
    requires seconds >= 0.0
    ensures IsClockLabel(FormatTime(seconds), seconds.Floor)
  {
    var mins := (seconds / 60.0).Floor;
    var secs := JsRem(seconds, 60.0).Floor;
    ClockArithmetic(seconds);
    assert FormatTime(seconds) == ClockLabel(mins, secs);
    ClockLabelDigits(mins, secs);
    assert mins * 60 + secs == seconds.Floor;
  }

  lemma ClockLabelDigits(mins: nat, secs: nat)
    requires secs < 60
    ensures IsClockLabel(ClockLabel(mins, secs), mins * 60 + secs)
  {
    var m := NatToString(mins);
    var p := PadStart(NatToString(secs), 2, '0');
    PaddedSeconds(secs);
    assert ClockLabel(mins, secs) == m + ":" + p;
    LabelShape(m, p, mins * 60 + secs);
  }

  lemma LabelShape(m: string, p: string, total: int)
    requires |m| >= 1 && AllDigits(m) && (m[0] == '0' ==> m == "0")
    requires |p| == 2 && AllDigits(p) && DigitsValue(p) < 60
    requires DigitsValue(m) * 60 + DigitsValue(p) == total
    ensures IsClockLabel(m + ":" + p, total)
  {
    var r := m + ":" + p;
    assert r[..|r| - 3] == m;
  }

  /** For a non-negative time the minutes and the seconds in the minute are
      natural numbers that recombine to the whole seconds. */
  lemma ClockArithmetic(x: real)
    requires x >= 0.0
    ensures (x / 60.0).Floor >= 0
    ensures 0 <= JsRem(x, 60.0).Floor < 60
    ensures (x / 60.0).Floor * 60 + JsRem(x, 60.0).Floor == x.Floor
  {
    var m := (x / 60.0).Floor;
    assert Trunc(x / 60.0) == m;
    var r := x - 60.0 * (m as real);
    assert 0.0 <= r < 60.0;
    var s := r.Floor;
    assert (60 * m + s) as real <= x < (60 * m + s + 1) as real;
  }

  /** Seconds below 60 padded to two characters are two digits with that value. */
  lemma PaddedSeconds(secs: nat)
    requires secs < 60
    ensures var p := PadStart(NatToString(secs), 2, '0');
      |p| == 2 && AllDigits(p) && DigitsValue(p) == secs
  {
    var d := NatToString(secs);
    var p := PadStart(d, 2, '0');
    if secs < 10 {
      assert p == ['0'] + d;
      assert p[..1] == "0";
      assert DigitsValue(p[..1]) == 0;
    } else {
      assert |d| == 2 by {
        assert d == NatToString(secs / 10) + [DigitChar(secs % 10)];
      }
    }
  }

  /** `getRemainingTime`: the stated duration less the playback time. */
  function RemainingTime(duration: real, currentTime: real): (r: real)
    ensures r + currentTime == duration
    ensures r >= 0.0 <==> currentTime <= duration
  {
    duration - currentTime
  }

  /** The right-hand clock label: a minus sign and the remaining time. */
  function RemainingLabel(duration: real, currentTime: real): string
  {
    "-" + FormatTime(RemainingTime(duration, currentTime))
  }

  /** In the first minute past the stated end the label reads `--1:-s`: a
      negative minute and an unpadded negative second count `s`, which is
      the overrun rounded up to whole seconds. */
  lemma OverrunLabel(duration: real, currentTime: real)
    requires duration < currentTime < duration + 60.0
    ensures var s := -(RemainingTime(duration, currentTime).Floor);
      && 1 <= s <= 60
      && (s - 1) as real < currentTime - duration <= s as real
      && RemainingLabel(duration, currentTime) == "--1:-" + NatToString(s)
  {
    var x := RemainingTime(duration, currentTime);
    OverrunClock(x);
    var f := x.Floor;
    NegativeSecondsText(f);
    assert NatToString(1) == "1";
    assert FormatTime(x) == "-1" + ":" + ("-" + NatToString(-f));
  }

  /** Less than a minute below zero: minute -1, and the remainder is the
      time itself. */
  lemma OverrunClock(x: real)
    requires -60.0 < x < 0.0
    ensures (x / 60.0).Floor == -1 && JsRem(x, 60.0) == x
    ensures -60 <= x.Floor <= -1
  {
    assert -1.0 <= x / 60.0 < 0.0;
    assert (-(x / 60.0)).Floor == 0;
    assert Trunc(x / 60.0) == 0;
  }

  /** A negative second count is already two characters wide, so padding
      leaves it alone. */
  lemma NegativeSecondsText(f: int)
    requires f <= -1
    ensures PadStart(IntToString(f), 2, '0') == "-" + NatToString(-f)
  {
  }

  // ---------------------------------------------------------------------------
  // Play/pause state

  /** What the component asks of the audio element. */
  datatype Command = PlayAudio | PauseAudio

  /** The component's state: whether an audio element is mounted, the
      `isPlaying` flag and the last `currentTime` reported. */
  datatype PlayerState = PlayerState(hasAudio: bool, isPlaying: bool, currentTime: real)

  datatype Reaction = Reaction(next: PlayerState, commands: seq<Command>)

  /** `togglePlayPause`: with no audio element nothing happens; otherwise pause
      when playing, play when not, and flip the flag. */
  function TogglePlayPause(s: PlayerState): (r: Reaction)
    ensures !s.hasAudio ==> r == Reaction(s, [])
    ensures s.hasAudio ==>
      && r.next == s.(isPlaying := !s.isPlaying)
      && r.commands == [if s.isPlaying then PauseAudio else PlayAudio]
  {
    if !s.hasAudio then Reaction(s, [])
    else
      var cmd := if s.isPlaying then PauseAudio else PlayAudio;
      Reaction(s.(isPlaying := !s.isPlaying), [cmd])
  }

  /** The audio element's `ended` handler. */
  function OnEnded(s: PlayerState): (r: PlayerState)
    ensures !r.isPlaying && r.hasAudio == s.hasAudio && r.currentTime == s.currentTime
  {
    s.(isPlaying := false)
  }

  /** The `timeupdate` listener, attached only when an audio element exists. */
  function OnTimeUpdate(s: PlayerState, t: real): (r: PlayerState)
    ensures r.isPlaying == s.isPlaying && r.hasAudio == s.hasAudio
    ensures r.currentTime == if s.hasAudio then t else s.currentTime
  {
    if s.hasAudio then s.(currentTime := t) else s
  }

  /** The audio element as far as play/pause goes. */
  function ApplyCommands(playing: bool, cmds: seq<Command>): bool
    decreases |cmds|
  {
    if cmds == [] then playing
    else ApplyCommands(cmds[0] == PlayAudio, cmds[1..])
  }

  predicate InSync(s: PlayerState, audioPlaying: bool) {
    s.hasAudio ==> s.isPlaying == audioPlaying
  }

  /** While every `play()` succeeds, the flag agrees with the audio element
      after a toggle and after the end of the track. */
  lemma ToggleKeepsSync(s: PlayerState, audioPlaying: bool)
    requires InSync(s, audioPlaying)
    ensures var r := TogglePlayPause(s);
      InSync(r.next, ApplyCommands(audioPlaying, r.commands))
  {
    var r := TogglePlayPause(s);
    if s.hasAudio {
      assert ApplyCommands(audioPlaying, r.commands) == ApplyCommands(r.commands[0] == PlayAudio, []);
    }
  }

  lemma EndedKeepsSync(s: PlayerState)
    ensures InSync(OnEnded(s), false)
  {
  }

  /** A time update never puts the flag out of step with the audio element. */
  lemma TimeUpdateKeepsSync(s: PlayerState, t: real, audioPlaying: bool)
    requires InSync(s, audioPlaying)
    ensures InSync(OnTimeUpdate(s, t), audioPlaying)
  {
  }

  /** Toggling twice restores the state and sends the opposite two commands. */
  lemma ToggleTwice(s: PlayerState)
    requires s.hasAudio
    ensures var r1 := TogglePlayPause(s); var r2 := TogglePlayPause(r1.next);
      && r2.next == s
      && r1.commands + r2.commands == (if s.isPlaying then [PauseAudio, PlayAudio] else [PlayAudio, PauseAudio])
  {
  }
}
