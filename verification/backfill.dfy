/** The metadata backfill (scripts/backfill-audio-urls.ts). RSS items give a
    map from episode date to audio URL and title; every transcription file
    and the two summary data files then receive the fields they lack, and the
    script counts the files it rewrites. Downloading the feed, turning a
    `pubDate` into a day (`parseDate`), reading and writing files and JSON
    are outside the model: an item carries its parsed day, and a file is
    given as its parsed record or as unreadable. */
module Backfill {
  import opened Wrappers
  import opened Text

  const AudioMpeg: string := "audio/mpeg"
  const JsonSuffix: string := ".json"
  /** The summary files in the data directory, in the order they are visited. */
  const DataFileNames: seq<string> := ["latest.json", "full-transcription.json"]

  /** One `media:content` enclosure of an item. */
  datatype Media = Media(url: string, mediaType: string)

  /** An RSS item: its day (the result of parsing `pubDate`), its title, and
      its enclosures, which may be absent. */
  datatype RssItem = RssItem(date: string, title: string, media: Option<seq<Media>>)

  datatype Episode = Episode(audioUrl: string, title: string)

  /** A transcription record: the three fields the script looks at, each
      possibly absent, and every other field by name, with its JSON text;
      the script never touches those. */
  datatype Record = Record(title: Option<string>, date: Option<string>, audioUrl: Option<string>, rest: map<string, string>)

  /** JavaScript truthiness of an optional string: present and non-empty. */
  predicate Truthy(s: Option<string>) {
    s.Some? && s.value != []
  }

  // ---------------------------------------------------------------------------
  // Episode data from the feed

  /** The position of the first enclosure of type `audio/mpeg`. */
  function FirstAudio(ms: seq<Media>): (r: Option<nat>)
    ensures r.Some? ==> r.value < |ms| && ms[r.value].mediaType == AudioMpeg
    ensures forall j :: 0 <= j < |ms| && (r.None? || j < r.value) ==> ms[j].mediaType != AudioMpeg
  {
    if ms == [] then None
    else if ms[0].mediaType == AudioMpeg then Some(0)
    else match FirstAudio(ms[1..]) {
      case None => None
      case Some(i) => Some(i + 1)
    }
  }

  /** `findAudioUrl`: the url of the first `audio/mpeg` enclosure, or None
      when there is none or its url is empty; a later enclosure is never
      consulted. */
  function FindAudioUrl(item: RssItem): (r: Option<string>)
    ensures r.Some? <==> item.media.Some? && FirstAudio(item.media.value).Some?
                         && item.media.value[FirstAudio(item.media.value).value].url != []
    ensures r.Some? ==> r.value == item.media.value[FirstAudio(item.media.value).value].url
  {
    match item.media
    case None => None
    case Some(ms) =>
      match FirstAudio(ms)
      case None => None
      case Some(i) => if ms[i].url != [] then Some(ms[i].url) else None
  }

  /** An item enters the episode map when it has an audio URL and a title. */
  predicate Qualifies(item: RssItem) {
    FindAudioUrl(item).Some? && item.title != []
  }

  function EpisodeOf(item: RssItem): Episode
    requires Qualifies(item)
  {
    Episode(FindAudioUrl(item).value, item.title)
  }

  /** The `episodeDataMap` loop: each qualifying item, in feed order, sets
      the entry for its day. */
  function BuildEpisodeMap(items: seq<RssItem>): map<string, Episode>
  {
    if items == [] then map[]
    else
      var m := BuildEpisodeMap(items[..|items| - 1]);
      var item := items[|items| - 1];
      if Qualifies(item) then m[item.date := EpisodeOf(item)] else m
  }

  /** The position of the last qualifying item with day `d`, if any. */
  function LastForDay(items: seq<RssItem>, d: string): (r: Option<nat>)
    ensures r.Some? ==> r.value < |items| && Qualifies(items[r.value]) && items[r.value].date == d
    ensures forall j :: 0 <= j < |items| && (r.None? || r.value < j) ==> !(Qualifies(items[j]) && items[j].date == d)
  {
    if items == [] then None
    else
      var n := |items| - 1;
      if Qualifies(items[n]) && items[n].date == d then Some(n)
      else
        var r := LastForDay(items[..n], d);
        assert forall j :: 0 <= j < n ==> items[..n][j] == items[j];
        r
  }

  /** The map holds a day exactly when some qualifying item has that day,
      and its value comes from the last such item. */
  lemma {:induction false} EpisodeMapLastWins(items: seq<RssItem>, d: string)
    ensures d in BuildEpisodeMap(items) <==> LastForDay(items, d).Some?
    ensures d in BuildEpisodeMap(items) ==> BuildEpisodeMap(items)[d] == EpisodeOf(items[LastForDay(items, d).value])
  {
    if items != [] {
      var n := |items| - 1;
      EpisodeMapLastWins(items[..n], d);
      if !(Qualifies(items[n]) && items[n].date == d) && LastForDay(items[..n], d).Some? {
        assert items[..n][LastForDay(items[..n], d).value] == items[LastForDay(items, d).value];
      }
    }
  }

  // ---------------------------------------------------------------------------
  // Filling one record

  /** The result of filling a record: the new record and the `updated` flag. */
  datatype Fill = Fill(record: Record, updated: bool)

  /** The fill rule: each of `audioUrl` and `title` is taken from the episode
      only when the record's own value is falsy; `updated` says whether
      either was. With the non-empty values the episode map holds, the flag
      is raised exactly when the record changes. */
  function FillMissing(rec: Record, ep: Episode): (f: Fill)
    ensures f.record.date == rec.date && f.record.rest == rec.rest
    ensures f.record.audioUrl == if Truthy(rec.audioUrl) then rec.audioUrl else Some(ep.audioUrl)
    ensures f.record.title == if Truthy(rec.title) then rec.title else Some(ep.title)
    ensures f.updated <==> !Truthy(rec.audioUrl) || !Truthy(rec.title)
    ensures ep.audioUrl != [] && ep.title != [] ==> (f.updated <==> f.record != rec)
  {
    var audioFilled := !Truthy(rec.audioUrl);
    var titleFilled := !Truthy(rec.title);
    var r1 := if audioFilled then rec.(audioUrl := Some(ep.audioUrl)) else rec;
    var r2 := if titleFilled then r1.(title := Some(ep.title)) else r1;
    Fill(r2, audioFilled || titleFilled)
  }

  /** A truthy `audioUrl` or `title` is never overwritten, and `date` and
      every other field stay as they were. */
  predicate KeepsFields(before: Record, after: Record) {
    && after.date == before.date && after.rest == before.rest
    && (Truthy(before.audioUrl) ==> after.audioUrl == before.audioUrl)
    && (Truthy(before.title) ==> after.title == before.title)
  }

  /** What happened to one file. */
  datatype Outcome = Skipped | NoEpisode | NothingFilled | Filled(record: Record)

  /** `path.basename(file, '.json')` for a directory entry: the name without
      its `.json` suffix, unless the suffix is the whole name. */
  function Basename(name: string): (r: string)
    ensures EndsWith(name, JsonSuffix) && |name| > |JsonSuffix| ==> r + JsonSuffix == name
    ensures !(EndsWith(name, JsonSuffix) && |name| > |JsonSuffix|) ==> r == name
  {
    if EndsWith(name, JsonSuffix) && |name| > |JsonSuffix| then
      var r := name[..|name| - |JsonSuffix|];
      assert r + JsonSuffix == name[..|name| - |JsonSuffix|] + name[|name| - |JsonSuffix|..];
      r
    else name
  }

  /** The day a transcription file is matched on: its own `date` when
      truthy, otherwise its file name. */
  function LookupKey(name: string, rec: Record): (k: string)
    ensures Truthy(rec.date) ==> k == rec.date.value
    ensures !Truthy(rec.date) ==> k == Basename(name)
  {
    if Truthy(rec.date) then rec.date.value else Basename(name)
  }

  /** A record without a date is matched on its file name: `d.json` looks up
      the day `d`. */
  lemma FileNameKey(d: string, rec: Record)
    requires d != [] && !Truthy(rec.date)
    ensures LookupKey(d + JsonSuffix, rec) == d
  {
    var name := d + JsonSuffix;
    assert name[|name| - |JsonSuffix|..] == JsonSuffix;
    assert Basename(name) + JsonSuffix == name;
    assert Basename(name) == name[..|name| - |JsonSuffix|];
    assert name[..|d|] == d;
  }

  /** One pass of the transcription-file loop on a parsed record. */
  function UpdateTranscription(name: string, rec: Record, m: map<string, Episode>): (o: Outcome)
    ensures o.Skipped? <==> Truthy(rec.audioUrl) && Truthy(rec.title)
    ensures o.NoEpisode? <==> !(Truthy(rec.audioUrl) && Truthy(rec.title)) && LookupKey(name, rec) !in m
    ensures o.Filled? ==> LookupKey(name, rec) in m && o.record == FillMissing(rec, m[LookupKey(name, rec)]).record
    ensures o.Filled? ==> KeepsFields(rec, o.record)
    ensures !o.NothingFilled?
  {
    if Truthy(rec.audioUrl) && Truthy(rec.title) then Skipped
    else
      var key := LookupKey(name, rec);
      if key !in m then NoEpisode
      else
        var f := FillMissing(rec, m[key]);
        if f.updated then Filled(f.record) else NothingFilled
  }

  /** One pass of the data-file loop on a parsed record: only a record that
      lacks a field and has a truthy `date` is looked up, by that date. */
  function UpdateDataFile(rec: Record, m: map<string, Episode>): (o: Outcome)
    ensures !Truthy(rec.date) ==> o.Skipped?
    ensures o.Skipped? <==> (Truthy(rec.audioUrl) && Truthy(rec.title)) || !Truthy(rec.date)
    ensures o.NoEpisode? <==> !(Truthy(rec.audioUrl) && Truthy(rec.title)) && Truthy(rec.date) && rec.date.value !in m
    ensures o.Filled? ==> rec.date.value in m && o.record == FillMissing(rec, m[rec.date.value]).record
    ensures o.Filled? ==> KeepsFields(rec, o.record)
    ensures !o.NothingFilled?
  {
    if (!Truthy(rec.audioUrl) || !Truthy(rec.title)) && Truthy(rec.date) then
      var key := rec.date.value;
      if key !in m then NoEpisode
      else
        var f := FillMissing(rec, m[key]);
        if f.updated then Filled(f.record) else NothingFilled
    else Skipped
  }

  // ---------------------------------------------------------------------------
  // The whole run

  /** A file's content: its parsed record, or Unreadable when reading or
      parsing throws (the loop catches the error and moves on). */
  datatype Content = Unreadable | Parsed(record: Record)

  /** The transcriptions directory: missing, present but failing to list
      (`readdirSync` throws outside any `try`, which ends the script before
      any file is touched), or its entries in listing order. */
  datatype Directory = MissingDirectory | UnlistableDirectory | Entries(files: seq<(string, Content)>)

  datatype FileRef = Transcription(name: string) | DataFile(name: string)

  datatype Written = Written(file: FileRef, record: Record)

  /** The files written so far and the `updatedCount` counter. */
  datatype Run = Run(writes: seq<Written>, updatedCount: nat)

  function Note(run: Run, file: FileRef, o: Outcome): Run {
    if o.Filled? then Run(run.writes + [Written(file, o.record)], run.updatedCount + 1) else run
  }

  /** The transcription-file loop over the `.json` entries. */
  function TranscriptionPass(files: seq<(string, Content)>, m: map<string, Episode>, run: Run): Run
    decreases |files|
  {
    if files == [] then run
    else
      var (name, content) := files[0];
      var next :=
        if EndsWith(name, JsonSuffix) && content.Parsed? then
          Note(run, Transcription(name), UpdateTranscription(name, content.record, m))
        else run;
      TranscriptionPass(files[1..], m, next)
  }

  /** The data-file loop; `data` maps the names of the files that exist to
      their contents. */
  function DataPass(names: seq<string>, data: map<string, Content>, m: map<string, Episode>, run: Run): Run
    decreases |names|
  {
    if names == [] then run
    else
      var name := names[0];
      var next :=
        if name in data && data[name].Parsed? then
          Note(run, DataFile(name), UpdateDataFile(data[name].record, m))
        else run;
      DataPass(names[1..], data, m, next)
  }

  /** `backfillAudioUrls`: nothing at all is written when the transcriptions
      directory is missing or cannot be listed. */
  function RunBackfill(items: seq<RssItem>, dir: Directory, data: map<string, Content>): (r: Run)
    ensures !dir.Entries? ==> r == Run([], 0)
  {
    match dir
    case MissingDirectory => Run([], 0)
    case UnlistableDirectory => Run([], 0)
    case Entries(files) =>
      var m := BuildEpisodeMap(items);
      DataPass(DataFileNames, data, m, TranscriptionPass(files, m, Run([], 0)))
  }

  // ---------------------------------------------------------------------------
  // Properties of the run

  /** The reference for the transcription loop: for every `.json` entry, in
      order, the record written for it, if any. */
  function TranscriptionWrites(files: seq<(string, Content)>, m: map<string, Episode>): seq<Written>
  {
    if files == [] then []
    else
      var (name, content) := files[0];
      var here :=
        if EndsWith(name, JsonSuffix) && content.Parsed? && UpdateTranscription(name, content.record, m).Filled? then
          [Written(Transcription(name), UpdateTranscription(name, content.record, m).record)]
        else [];
      here + TranscriptionWrites(files[1..], m)
  }

  lemma {:induction false} TranscriptionPassWrites(files: seq<(string, Content)>, m: map<string, Episode>, run: Run)
    ensures TranscriptionPass(files, m, run).writes == run.writes + TranscriptionWrites(files, m)
    ensures TranscriptionPass(files, m, run).updatedCount - run.updatedCount
         == |TranscriptionPass(files, m, run).writes| - |run.writes|
    decreases |files|
  {
    if files != [] {
      var (name, content) := files[0];
      var next :=
        if EndsWith(name, JsonSuffix) && content.Parsed? then
          Note(run, Transcription(name), UpdateTranscription(name, content.record, m))
        else run;
      var here :=
        if EndsWith(name, JsonSuffix) && content.Parsed? && UpdateTranscription(name, content.record, m).Filled? then
          [Written(Transcription(name), UpdateTranscription(name, content.record, m).record)]
        else [];
      assert next.writes == run.writes + here;
      assert next.updatedCount - run.updatedCount == |next.writes| - |run.writes|;
      TranscriptionPassWrites(files[1..], m, next);
      AppendAssoc(run.writes, here, TranscriptionWrites(files[1..], m));
    }
  }

  /** The reference for the data-file loop: for every listed name, in order,
      the record written for it, if any. */
  function DataWrites(names: seq<string>, data: map<string, Content>, m: map<string, Episode>): seq<Written>
  {
    if names == [] then []
    else
      var name := names[0];
      var here :=
        if name in data && data[name].Parsed? && UpdateDataFile(data[name].record, m).Filled? then
          [Written(DataFile(name), UpdateDataFile(data[name].record, m).record)]
        else [];
      here + DataWrites(names[1..], data, m)
  }

  lemma {:induction false} DataPassWrites(names: seq<string>, data: map<string, Content>, m: map<string, Episode>, run: Run)
    ensures DataPass(names, data, m, run).writes == run.writes + DataWrites(names, data, m)
    ensures DataPass(names, data, m, run).updatedCount - run.updatedCount
         == |DataPass(names, data, m, run).writes| - |run.writes|
    decreases |names|
  {
    if names != [] {
      var name := names[0];
      var next :=
        if name in data && data[name].Parsed? then
          Note(run, DataFile(name), UpdateDataFile(data[name].record, m))
        else run;
      var here :=
        if name in data && data[name].Parsed? && UpdateDataFile(data[name].record, m).Filled? then
          [Written(DataFile(name), UpdateDataFile(data[name].record, m).record)]
        else [];
      assert next.writes == run.writes + here;
      assert next.updatedCount - run.updatedCount == |next.writes| - |run.writes|;
      DataPassWrites(names[1..], data, m, next);
      AppendAssoc(run.writes, here, DataWrites(names[1..], data, m));
    }
  }

  /** A data file is written, with record `r`, exactly when it is listed,
      exists, parses, and its update fills something and yields `r`. */
  lemma {:induction false} DataWrittenIff(names: seq<string>, data: map<string, Content>, m: map<string, Episode>, w: Written)
    ensures w in DataWrites(names, data, m) <==>
      exists i :: 0 <= i < |names| && w.file == DataFile(names[i]) && names[i] in data
        && data[names[i]].Parsed? && UpdateDataFile(data[names[i]].record, m) == Filled(w.record)
    decreases |names|
  {
    if names != [] {
      DataWrittenIff(names[1..], data, m, w);
      assert forall i :: 1 <= i < |names| ==> names[1..][i - 1] == names[i];
      if exists i :: 0 <= i < |names| && w.file == DataFile(names[i]) && names[i] in data
          && data[names[i]].Parsed? && UpdateDataFile(data[names[i]].record, m) == Filled(w.record)
      {
        var i :| 0 <= i < |names| && w.file == DataFile(names[i]) && names[i] in data
          && data[names[i]].Parsed? && UpdateDataFile(data[names[i]].record, m) == Filled(w.record);
        if i > 0 {
          assert names[1..][i - 1] == names[i];
        }
      }
    }
  }

  /** A transcription file is written, with record `r`, exactly when it is a
      readable `.json` entry whose update fills something and yields `r`. */
  lemma {:induction false} TranscriptionWrittenIff(files: seq<(string, Content)>, m: map<string, Episode>, w: Written)
    ensures w in TranscriptionWrites(files, m) <==>
      exists i :: 0 <= i < |files| && w.file == Transcription(files[i].0) && EndsWith(files[i].0, JsonSuffix)
        && files[i].1.Parsed? && UpdateTranscription(files[i].0, files[i].1.record, m) == Filled(w.record)
    decreases |files|
  {
    if files != [] {
      TranscriptionWrittenIff(files[1..], m, w);
      assert forall i :: 1 <= i < |files| ==> files[1..][i - 1] == files[i];
      var (name, content) := files[0];
      if exists i :: 0 <= i < |files| && w.file == Transcription(files[i].0) && EndsWith(files[i].0, JsonSuffix)
          && files[i].1.Parsed? && UpdateTranscription(files[i].0, files[i].1.record, m) == Filled(w.record)
      {
        var i :| 0 <= i < |files| && w.file == Transcription(files[i].0) && EndsWith(files[i].0, JsonSuffix)
          && files[i].1.Parsed? && UpdateTranscription(files[i].0, files[i].1.record, m) == Filled(w.record);
        if i > 0 {
          assert files[1..][i - 1] == files[i];
        }
      }
    }
  }

  /** `updatedCount` equals the number of files written; the writes are the
      transcription files the transcription reference names, in listing
      order, followed by the data files the data reference names. */
  lemma CountEqualsWrites(items: seq<RssItem>, dir: Directory, data: map<string, Content>)
    ensures var r := RunBackfill(items, dir, data);
      r.updatedCount == |r.writes|
    ensures dir.Entries? ==>
      var m := BuildEpisodeMap(items);
      RunBackfill(items, dir, data).writes
        == TranscriptionWrites(dir.files, m) + DataWrites(DataFileNames, data, m)
  {
    if dir.Entries? {
      var m := BuildEpisodeMap(items);
      var first := TranscriptionPass(dir.files, m, Run([], 0));
      TranscriptionPassWrites(dir.files, m, Run([], 0));
      DataPassWrites(DataFileNames, data, m, first);
    }
  }

  /** A file is written by the whole run, with record `r`, exactly when it is
      a readable `.json` transcription entry or a readable summary data file
      whose update fills something and yields `r`. */
  lemma WrittenIff(items: seq<RssItem>, files: seq<(string, Content)>, data: map<string, Content>, w: Written)
    ensures var m := BuildEpisodeMap(items);
      w in RunBackfill(items, Entries(files), data).writes <==>
        || (exists i ::
              0 <= i < |files| && w.file == Transcription(files[i].0) && EndsWith(files[i].0, JsonSuffix)
              && files[i].1.Parsed? && UpdateTranscription(files[i].0, files[i].1.record, m) == Filled(w.record))
        || (exists i ::
              0 <= i < |DataFileNames| && w.file == DataFile(DataFileNames[i]) && DataFileNames[i] in data
              && data[DataFileNames[i]].Parsed? && UpdateDataFile(data[DataFileNames[i]].record, m) == Filled(w.record))
  {
    var m := BuildEpisodeMap(items);
    CountEqualsWrites(items, Entries(files), data);
    TranscriptionWrittenIff(files, m, w);
    DataWrittenIff(DataFileNames, data, m, w);
  }
}
