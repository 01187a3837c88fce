/** The transcript records: a timed word and an utterance (a run of words from
    one speaker with its text, time span and optional translations). Times and
    confidences are real numbers of seconds and probabilities. */
module Types {
  import opened Wrappers

  datatype Word = Word(word: string, start: real, end: real, confidence: real)

  /** The per-language translations of an utterance; each entry may be absent. */
  datatype Translations = Translations(en: Option<string>, fr: Option<string>)

  datatype Utterance = Utterance(
    text: string,
    start: real,
    end: real,
    confidence: real,
    speaker: int,
    words: seq<Word>,
    translations: Option<Translations>,
    translation: Option<string>  // legacy single translation
  )

  /** The words of a sequence of utterances, in order (`flatMap` over `words`). */
  function AllWords(us: seq<Utterance>): seq<Word>
  {
    if us == [] then [] else us[0].words + AllWords(us[1..])
  }

  lemma {:induction false} AllWordsAppend(xs: seq<Utterance>, ys: seq<Utterance>)
    ensures AllWords(xs + ys) == AllWords(xs) + AllWords(ys)
  {
    if xs == [] {
      assert xs + ys == ys;
    } else {
      assert (xs + ys)[1..] == xs[1..] + ys;
      AllWordsAppend(xs[1..], ys);
    }
  }

  /** The texts of a sequence of utterances, in order. */
  function Texts(us: seq<Utterance>): (r: seq<string>)
    ensures |r| == |us| && forall i :: 0 <= i < |us| ==> r[i] == us[i].text
  {
    seq(|us|, i requires 0 <= i < |us| => us[i].text)
  }
}
