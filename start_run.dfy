/**
 * The start-button handler of the renderer: input validation, the quality map, playlist
 * expansion, the per-item progress weight, the sequential download loop and the final report.
 *
 * Everything the handler does to the page or sends to the main process is recorded, in
 * order, as an `Effect`.  The playlist service and the two downloaders are oracles whose
 * answers are given as sequences: `answers[i]` is what the playlist service returns for
 * list entry `i` (unused for an entry that is not a playlist), and `outcomes[k]` is what
 * the `k`-th download call returns.
 */
module StartRun {
  import opened Base

  /** An entry containing this text is resolved through the playlist service. */
  const PlaylistMarker: string := "playlist?list="
  /** A URL containing this text goes to the alternate downloader. */
  const NetflixMarker: string := "netflix"

  /** Keys of the language table whose texts the handler shows. */
  datatype Phrase =
    | NoUrls | DownloadMode | Codec | Quality | StorageLocation
    | Error | Success | SongsDownloaded | DownloadAborted

  /** What the handler reads from the page when the start button is clicked. */
  datatype Inputs = Inputs(
    items: seq<string>,       // text of every list entry, in list order
    mode: Option<string>,     // `data-value` of the mode selector (None: attribute absent)
    codec: Option<string>,    // `data-value` of the codec selector
    quality: Option<string>,  // `data-value` of the quality selector
    location: string)         // value of the download-location field

  /** The quality argument handed to the downloader: a mapped level, or the selector element
      itself, which is what the handler passes when the selection was not mapped. */
  datatype QualityArg = Level(n: int) | QualityElement

  /** The settings one run is made with. */
  datatype Config = Config(mode: string, location: string, codec: Option<string>, quality: QualityArg)

  /** Share of the total progress given to one URL, in hundredths of a percent;
      `Infinite` is what `100 / 0` yields when every entry was an empty playlist. */
  datatype Weight = Hundredths(n: nat) | Infinite

  /** One call of a downloader.  The alternate downloader is called without arguments. */
  datatype DownloadCall =
    | YouTube(mode: string, location: string, url: string, weight: Weight,
              codec: Option<string>, quality: QualityArg, playlistCount: int)
    | Netflix

  datatype Effect =
    | ShowNotice(phrase: Phrase)                     // in-window notification
    | SendNotification(title: Phrase, body: Phrase)  // 'show_notification' to the main process
    | SetDisabled                                    // controls disabled
    | SetEnabled                                     // controls enabled
    | SendSetPercentage(value: int)                  // 'set_percentage' (taskbar progress)
    | SendAddAbort                                   // 'add_abort'
    | SendRemoveAbort                                // 'remove_abort'
    | ResetProgress                                  // both bars to 0, both labels to "0%"
    | ResolvePlaylist(item: string)                  // one query of the playlist service
    | Download(call: DownloadCall)                   // one downloader call
    | CompleteProgress                               // total bar to 1, total label to "100%"

  // ---------------------------------------------------------------------------------------
  // Validation and the quality map

  /** The quality selector's value mapped to the downloader's level (lower is better). */
  function QualityLevel(selected: string): QualityArg
  {
    if selected == "best" then Level(0)
    else if selected == "medium" then Level(5)
    else if selected == "worst" then Level(9)
    else QualityElement
  }

  /** The handler's checks in their order; the first that fails names the phrase shown. */
  function Validate(inp: Inputs): Result<Config, Phrase>
  {
    if |inp.items| == 0 then Err(NoUrls)
    else if Falsy(inp.mode) then Err(DownloadMode)
    else if inp.mode.value == "audio" && Falsy(inp.codec) then Err(Codec)
    else if inp.mode.value == "audio" && Falsy(inp.quality) then Err(Quality)
    else if inp.location == "" then Err(StorageLocation)
    else
      var quality := if inp.mode.value == "audio" then QualityLevel(inp.quality.value) else QualityElement;
      Ok(Config(inp.mode.value, inp.location, inp.codec, quality))
  }

  /** Every input a run needs is present: items, a mode, in audio mode a codec and a
      quality, and a location. */
  predicate Ready(inp: Inputs)
  {
    && |inp.items| > 0
    && !Falsy(inp.mode)
    && (inp.mode == Some("audio") ==> !Falsy(inp.codec) && !Falsy(inp.quality))
    && inp.location != ""
  }

  /** Validation accepts exactly the ready inputs, and when it refuses, the phrase is that
      of the first missing input in the order items, mode, codec, quality, location. */
  lemma ValidationOrder(inp: Inputs)
    ensures Validate(inp).Ok? <==> Ready(inp)
    ensures Validate(inp) == Err(NoUrls) <==> |inp.items| == 0
    ensures Validate(inp) == Err(DownloadMode) <==> |inp.items| > 0 && Falsy(inp.mode)
    ensures Validate(inp) == Err(Codec) <==>
      |inp.items| > 0 && inp.mode == Some("audio") && Falsy(inp.codec)
    ensures Validate(inp) == Err(Quality) <==>
      |inp.items| > 0 && inp.mode == Some("audio") && !Falsy(inp.codec) && Falsy(inp.quality)
    ensures Validate(inp) == Err(StorageLocation) <==>
      && |inp.items| > 0 && !Falsy(inp.mode)
      && (inp.mode == Some("audio") ==> !Falsy(inp.codec) && !Falsy(inp.quality))
      && inp.location == ""
  {
  }

  /** In audio mode the three selector values map to levels 0, 5 and 9; any other value
      leaves the selector element itself as the quality argument. */
  lemma AudioQualityLevels(inp: Inputs)
    requires Ready(inp) && inp.mode == Some("audio")
    ensures inp.quality == Some("best") ==> Validate(inp).value.quality == Level(0)
    ensures inp.quality == Some("medium") ==> Validate(inp).value.quality == Level(5)
    ensures inp.quality == Some("worst") ==> Validate(inp).value.quality == Level(9)
    ensures inp.quality.value != "best" && inp.quality.value != "medium" && inp.quality.value != "worst" ==>
      Validate(inp).value.quality == QualityElement
  {
  }

  /** In any mode other than audio, codec and quality are neither checked nor mapped:
      replacing them changes nothing but the codec passed through. */
  lemma OtherModesIgnoreCodecAndQuality(inp: Inputs, codec: Option<string>, quality: Option<string>)
    requires inp.mode.Some? && inp.mode.value != "audio"
    ensures var other := inp.(codec := codec, quality := quality);
      && Validate(other).Ok? == Validate(inp).Ok?
      && (Validate(inp).Err? ==> Validate(other) == Validate(inp))
      && (Validate(inp).Ok? ==>
            Validate(inp).value.quality == QualityElement
            && Validate(other).value == Validate(inp).value.(codec := codec))
  {
  }

  // ---------------------------------------------------------------------------------------
  // Expansion of the list into URLs

  /** What one list entry contributes: the playlist's URLs, or the entry itself. */
  function Contribution(item: string, answer: seq<string>): seq<string>
  {
    if Contains(item, PlaylistMarker) then answer else [item]
  }

  /** The URLs of all entries, concatenated in list order. */
  function Expansion(items: seq<string>, answers: seq<seq<string>>): seq<string>
    requires |answers| == |items|
    decreases |items|
  {
    if |items| == 0 then []
    else
      var n := |items| - 1;
      Expansion(items[..n], answers[..n]) + Contribution(items[n], answers[n])
  }

  /** The playlist-service queries the expansion makes, in list order. */
  function Resolutions(items: seq<string>): seq<Effect>
    decreases |items|
  {
    if |items| == 0 then []
    else
      var n := |items| - 1;
      Resolutions(items[..n]) + (if Contains(items[n], PlaylistMarker) then [ResolvePlaylist(items[n])] else [])
  }

  /** One step of the expansion: the last entry's contribution follows the others'. */
  lemma ExpansionStep(items: seq<string>, answers: seq<seq<string>>)
    requires |answers| == |items| > 0
    ensures var n := |items| - 1;
      Expansion(items, answers) == Expansion(items[..n], answers[..n]) + Contribution(items[n], answers[n])
  {
  }

  /** The expansion keeps list order: the URLs of the entries before `i`, followed by entry
      `i`'s own, begin the expansion of the whole list. */
  lemma {:induction false} ExpansionKeepsOrder(items: seq<string>, answers: seq<seq<string>>, i: nat)
    requires |answers| == |items| && i < |items|
    ensures Expansion(items[..i], answers[..i]) + Contribution(items[i], answers[i])
         <= Expansion(items, answers)
    decreases |items|
  {
    var n := |items| - 1;
    ExpansionStep(items, answers);
    if i < n {
      var front, frontA := items[..n], answers[..n];
      ExpansionKeepsOrder(front, frontA, i);
      assert front[..i] == items[..i] && frontA[..i] == answers[..i];
      assert front[i] == items[i] && frontA[i] == answers[i];
    }
  }

  /** A sequence is its part before `i`, its element `i` and its part after `i`. */
  lemma SplitAround<T>(s: seq<T>, i: nat)
    requires i < |s|
    ensures s == s[..i] + [s[i]] + s[i + 1..]
  {
  }

  /** A list without playlist entries expands to itself. */
  lemma {:induction false} ExpansionOfDirectLinks(items: seq<string>, answers: seq<seq<string>>)
    requires |answers| == |items|
    requires forall i :: 0 <= i < |items| ==> !Contains(items[i], PlaylistMarker)
    ensures Expansion(items, answers) == items
    ensures Resolutions(items) == []
    decreases |items|
  {
    if |items| > 0 {
      var n := |items| - 1;
      ExpansionOfDirectLinks(items[..n], answers[..n]);
      SplitAround(items, n);
    }
  }

  /** The expansion loop: `count` and `allUrls` grow entry by entry; a playlist entry is
      resolved through the playlist service, any other entry is taken as it is. */
  method ExpandItems(items: seq<string>, answers: seq<seq<string>>)
    returns (count: nat, allUrls: seq<string>, resolved: seq<Effect>)
    requires |answers| == |items|
    ensures allUrls == Expansion(items, answers)
    ensures count == |allUrls|
    ensures resolved == Resolutions(items)
  {
    count, allUrls, resolved := 0, [], [];
    for i := 0 to |items|
      invariant allUrls == Expansion(items[..i], answers[..i])
      invariant count == |allUrls|
      invariant resolved == Resolutions(items[..i])
    {
      assert items[..i + 1][..i] == items[..i];
      assert answers[..i + 1][..i] == answers[..i];
      if Contains(items[i], PlaylistMarker) {
        var urls := answers[i];
        resolved := resolved + [ResolvePlaylist(items[i])];
        count := count + |urls|;
        allUrls := allUrls + urls;
      } else {
        count := count + 1;
        allUrls := allUrls + [items[i]];
      }
    }
    assert items[..|items|] == items;
    assert answers[..|answers|] == answers;
  }

  // ---------------------------------------------------------------------------------------
  // Progress weight

  /** `Math.floor(100 / count * 100) / 100` percent, kept in hundredths. */
  function WeightFor(count: nat): Weight
  {
    if count == 0 then Infinite else Hundredths(10000 / count)
  }

  /** For at least one URL the weights never add up to more than 100%, fall short of it by
      less than one hundredth per URL, and reach it exactly when `count` divides 10000. */
  lemma WeightBounds(count: nat)
    requires count >= 1
    ensures WeightFor(count).Hundredths?
    ensures count * WeightFor(count).n <= 10000 < count * (WeightFor(count).n + 1)
    ensures count * WeightFor(count).n == 10000 <==> 10000 % count == 0
  {
    var w := 10000 / count;
    var r := 10000 % count;
    assert 10000 == count * w + r && 0 <= r < count;
    assert count * (w + 1) == count * w + count;
  }

  // ---------------------------------------------------------------------------------------
  // The download loop

  /** The downloader call made for one URL. */
  function CallFor(url: string, cfg: Config, weight: Weight, playlistCount: int): DownloadCall
  {
    if !Contains(url, NetflixMarker) then
      YouTube(cfg.mode, cfg.location, url, weight, cfg.codec, cfg.quality, playlistCount)
    else
      Netflix
  }

  /** The calls made for `urls`, in order. */
  function Downloads(urls: seq<string>, cfg: Config, weight: Weight, playlistCount: int): seq<Effect>
  {
    seq(|urls|, k requires 0 <= k < |urls| => Download(CallFor(urls[k], cfg, weight, playlistCount)))
  }

  /** How many downloads the loop attempts, and whether it stopped on a failure. */
  datatype RunOutcome = RunOutcome(attempted: nat, aborted: bool)

  /** The loop over the outcomes of successive calls: it stops right after the first `false`. */
  function Run(outcomes: seq<bool>): (r: RunOutcome)
    ensures r.attempted <= |outcomes|
    ensures r.aborted ==> r.attempted > 0
  {
    if |outcomes| == 0 then RunOutcome(0, false)
    else if !outcomes[0] then RunOutcome(1, true)
    else
      var rest := Run(outcomes[1..]);
      RunOutcome(1 + rest.attempted, rest.aborted)
  }

  /** After `i` successful calls the rest of the run is the run of the remaining outcomes. */
  lemma {:induction false} RunAfterSuccesses(outcomes: seq<bool>, i: nat)
    requires i <= |outcomes|
    requires forall j :: 0 <= j < i ==> outcomes[j]
    ensures Run(outcomes).attempted == i + Run(outcomes[i..]).attempted
    ensures Run(outcomes).aborted == Run(outcomes[i..]).aborted
  {
    if i > 0 {
      RunAfterSuccesses(outcomes[1..], i - 1);
      assert outcomes[1..][i - 1..] == outcomes[i..];
    }
  }

  /** The loop attempts calls in order and stops at the first failure: every attempted call
      but the last succeeded; the run is aborted exactly when some outcome is `false`, and
      then the last attempted call is the first failing one; otherwise every call is made. */
  lemma {:induction false} RunCharacterization(outcomes: seq<bool>)
    ensures forall j :: 0 <= j < Run(outcomes).attempted - 1 ==> outcomes[j]
    ensures Run(outcomes).aborted <==> exists j :: 0 <= j < |outcomes| && !outcomes[j]
    ensures Run(outcomes).aborted ==> !outcomes[Run(outcomes).attempted - 1]
    ensures !Run(outcomes).aborted ==> Run(outcomes).attempted == |outcomes|
  {
    if |outcomes| > 0 && outcomes[0] {
      var rest := outcomes[1..];
      RunCharacterization(rest);
      if exists j :: 0 <= j < |outcomes| && !outcomes[j] {
        var j :| 0 <= j < |outcomes| && !outcomes[j];
        assert !rest[j - 1];
      }
      if exists j :: 0 <= j < |rest| && !rest[j] {
        var j :| 0 <= j < |rest| && !rest[j];
        assert !outcomes[j + 1];
      }
      forall j | 0 <= j < Run(outcomes).attempted - 1
        ensures outcomes[j]
      {
        if j > 0 {
          assert outcomes[j] == rest[j - 1];
        }
      }
    }
  }

  /** The download loop: each URL goes to the alternate downloader when it contains
      "netflix", to the main downloader otherwise, and the loop breaks on the first `false`. */
  method RunQueue(urls: seq<string>, outcomes: seq<bool>, cfg: Config, weight: Weight, playlistCount: int)
    returns (calls: seq<Effect>, aborted: bool)
    requires |outcomes| >= |urls|
    ensures calls == Downloads(urls[..Run(outcomes[..|urls|]).attempted], cfg, weight, playlistCount)
    ensures aborted == Run(outcomes[..|urls|]).aborted
  {
    ghost var run := outcomes[..|urls|];
    calls, aborted := [], false;
    var i := 0;
    while i < |urls|
      invariant 0 <= i <= |urls|
      invariant forall j :: 0 <= j < i ==> outcomes[j]
      invariant calls == Downloads(urls[..i], cfg, weight, playlistCount)
      invariant !aborted
    {
      var url := urls[i];
      var call;
      if !Contains(url, NetflixMarker) {
        call := YouTube(cfg.mode, cfg.location, url, weight, cfg.codec, cfg.quality, playlistCount);
      } else {
        call := Netflix;
      }
      var success := outcomes[i];
      calls := calls + [Download(call)];
      assert calls == Downloads(urls[..i + 1], cfg, weight, playlistCount);
      if !success {
        aborted := true;
        RunAfterSuccesses(run, i);
        assert run[i..][0] == outcomes[i];
        break;
      }
      i := i + 1;
    }
    if !aborted {
      RunAfterSuccesses(run, |urls|);
      assert urls[..|urls|] == urls;
    }
  }

  // ---------------------------------------------------------------------------------------
  // The whole handler

  /** A refused start: the phrase in the window, and as a system notification as well when
      the window is hidden. */
  function Refusal(phrase: Phrase, hidden: bool): seq<Effect>
  {
    [ShowNotice(phrase)] + (if hidden then [SendNotification(Error, phrase)] else [])
  }

  /** What a validated start does before expanding the list. */
  function StartPrelude(): seq<Effect>
  {
    [SetDisabled, SendSetPercentage(0), SendAddAbort, ResetProgress]
  }

  /** The closing notification: success as a system notification, an abort like a refusal. */
  function Report(aborted: bool, hidden: bool): seq<Effect>
  {
    if !aborted then [SendNotification(Success, SongsDownloaded)] else Refusal(DownloadAborted, hidden)
  }

  /** Everything one click of the start button does, in order. */
  function StartTrace(inp: Inputs, hidden: bool, answers: seq<seq<string>>, outcomes: seq<bool>, playlistCount: int)
    : seq<Effect>
    requires |answers| == |inp.items|
    requires |outcomes| >= |Expansion(inp.items, answers)|
  {
    match Validate(inp)
    case Err(phrase) => Refusal(phrase, hidden)
    case Ok(cfg) =>
      var urls := Expansion(inp.items, answers);
      var run := Run(outcomes[..|urls|]);
      StartPrelude()
      + Resolutions(inp.items)
      + Downloads(urls[..run.attempted], cfg, WeightFor(|urls|), playlistCount)
      + [CompleteProgress, SetEnabled]
      + Report(run.aborted, hidden)
      + [SendRemoveAbort]
  }

  /** The start-button handler. */
  method Start(inp: Inputs, hidden: bool, answers: seq<seq<string>>, outcomes: seq<bool>, playlistCount: int)
    returns (effects: seq<Effect>)
    requires |answers| == |inp.items|
    requires |outcomes| >= |Expansion(inp.items, answers)|
    ensures effects == StartTrace(inp, hidden, answers, outcomes, playlistCount)
  {
    if |inp.items| == 0 {
      effects := Refusal(NoUrls, hidden);
      return;
    }
    if Falsy(inp.mode) {
      effects := Refusal(DownloadMode, hidden);
      return;
    }
    var mode := inp.mode.value;
    var quality := QualityElement;
    if mode == "audio" {
      if Falsy(inp.codec) {
        effects := Refusal(Codec, hidden);
        return;
      }
      if Falsy(inp.quality) {
        effects := Refusal(Quality, hidden);
        return;
      }
      quality := QualityLevel(inp.quality.value);
    }
    if inp.location == "" {
      effects := Refusal(StorageLocation, hidden);
      return;
    }

    effects := StartPrelude();
    var count, allUrls, resolved := ExpandItems(inp.items, answers);
    effects := effects + resolved;
    var weight := WeightFor(count);
    var cfg := Config(mode, inp.location, inp.codec, quality);
    var calls, aborted := RunQueue(allUrls, outcomes, cfg, weight, playlistCount);
    effects := effects + calls + [CompleteProgress, SetEnabled] + Report(aborted, hidden) + [SendRemoveAbort];
  }

  // ---------------------------------------------------------------------------------------
  // Properties of a click

  /** A refused start only notifies: nothing is disabled, no progress is reset, the tray
      is not switched to abort, no playlist is resolved and nothing is downloaded. */
  lemma RefusedStartOnlyNotifies(inp: Inputs, hidden: bool, answers: seq<seq<string>>, outcomes: seq<bool>, playlistCount: int)
    requires |answers| == |inp.items|
    requires |outcomes| >= |Expansion(inp.items, answers)|
    requires !Ready(inp)
    ensures var t := StartTrace(inp, hidden, answers, outcomes, playlistCount);
      && 1 <= |t| <= 2
      && forall e :: e in t ==> e.ShowNotice? || (e.SendNotification? && e.title == Error)
  {
    ValidationOrder(inp);
  }

  /** A validated start first disables the controls, zeroes the taskbar progress, switches
      the tray to abort and resets the bars; it always pins the total to 100% before the
      report and always ends by switching the tray back. */
  lemma AcceptedStartFrame(inp: Inputs, hidden: bool, answers: seq<seq<string>>, outcomes: seq<bool>, playlistCount: int)
    requires |answers| == |inp.items|
    requires |outcomes| >= |Expansion(inp.items, answers)|
    requires Ready(inp)
    ensures var t := StartTrace(inp, hidden, answers, outcomes, playlistCount);
      && |t| >= 8
      && t[..4] == [SetDisabled, SendSetPercentage(0), SendAddAbort, ResetProgress]
      && CompleteProgress in t
      && t[|t| - 1] == SendRemoveAbort
  {
    ValidationOrder(inp);
  }

  /** No notice and no notification among `effects`. */
  predicate Quiet(effects: seq<Effect>)
  {
    forall e :: e in effects ==> !e.ShowNotice? && !e.SendNotification?
  }

  /** Everything a validated start does before its report is quiet. */
  lemma {:induction false} BodyIsQuiet(items: seq<string>, calls: seq<Effect>)
    requires forall e :: e in calls ==> e.Download?
    ensures Quiet(StartPrelude() + Resolutions(items) + calls + [CompleteProgress, SetEnabled])
  {
    ResolutionsAreQueries(items);
  }

  /** After a quiet body, the report sends the success notification exactly when the run
      was not aborted and shows the abort notice exactly when it was. */
  lemma ReportAfterQuiet(body: seq<Effect>, aborted: bool, hidden: bool)
    requires Quiet(body)
    ensures var t := body + Report(aborted, hidden) + [SendRemoveAbort];
      && (SendNotification(Success, SongsDownloaded) in t <==> !aborted)
      && (ShowNotice(DownloadAborted) in t <==> aborted)
  {
    var t := body + Report(aborted, hidden) + [SendRemoveAbort];
    if !aborted {
      assert t[|body|] == SendNotification(Success, SongsDownloaded);
    } else {
      assert t[|body|] == ShowNotice(DownloadAborted);
    }
  }

  /** The success notification is sent exactly when the inputs are ready and every URL of
      the expanded list downloaded successfully; otherwise, for a ready input, the abort
      notice is shown. */
  lemma SuccessExactlyWhenNoFailure(inp: Inputs, hidden: bool, answers: seq<seq<string>>, outcomes: seq<bool>, playlistCount: int)
    requires |answers| == |inp.items|
    requires |outcomes| >= |Expansion(inp.items, answers)|
    ensures var t := StartTrace(inp, hidden, answers, outcomes, playlistCount);
      var urls := Expansion(inp.items, answers);
      && (SendNotification(Success, SongsDownloaded) in t <==>
            Ready(inp) && forall j :: 0 <= j < |urls| ==> outcomes[j])
      && (Ready(inp) ==>
            (ShowNotice(DownloadAborted) in t <==> exists j :: 0 <= j < |urls| && !outcomes[j]))
  {
    ValidationOrder(inp);
    var t := StartTrace(inp, hidden, answers, outcomes, playlistCount);
    var urls := Expansion(inp.items, answers);
    if Ready(inp) {
      var cfg := Validate(inp).value;
      var o := outcomes[..|urls|];
      var run := Run(o);
      var calls := Downloads(urls[..run.attempted], cfg, WeightFor(|urls|), playlistCount);
      var body := StartPrelude() + Resolutions(inp.items) + calls + [CompleteProgress, SetEnabled];
      assert t == body + Report(run.aborted, hidden) + [SendRemoveAbort];
      BodyIsQuiet(inp.items, calls);
      ReportAfterQuiet(body, run.aborted, hidden);
      RunCharacterization(o);
      assert run.aborted <==> exists j :: 0 <= j < |urls| && !outcomes[j] by {
        if j :| 0 <= j < |urls| && !outcomes[j] {
          assert !o[j];
        }
      }
    } else {
      var phrase := Validate(inp).error;
      assert t == Refusal(phrase, hidden);
    }
  }

  /** The expansion emits nothing but playlist queries. */
  lemma {:induction false} ResolutionsAreQueries(items: seq<string>)
    ensures forall e :: e in Resolutions(items) ==> e.ResolvePlaylist?
    decreases |items|
  {
    if |items| > 0 {
      ResolutionsAreQueries(items[..|items| - 1]);
    }
  }

  /** When every download succeeds, a validated start makes one call per expanded URL, in
      order and with the same weight, and ends with the success notification. */
  lemma AllSucceededTrace(inp: Inputs, hidden: bool, answers: seq<seq<string>>, outcomes: seq<bool>, playlistCount: int)
    requires |answers| == |inp.items|
    requires |outcomes| >= |Expansion(inp.items, answers)|
    requires Validate(inp).Ok?
    requires forall j :: 0 <= j < |Expansion(inp.items, answers)| ==> outcomes[j]
    ensures var urls := Expansion(inp.items, answers);
      StartTrace(inp, hidden, answers, outcomes, playlistCount) ==
        StartPrelude()
        + Resolutions(inp.items)
        + Downloads(urls, Validate(inp).value, WeightFor(|urls|), playlistCount)
        + [CompleteProgress, SetEnabled, SendNotification(Success, SongsDownloaded), SendRemoveAbort]
  {
    var urls := Expansion(inp.items, answers);
    var o := outcomes[..|urls|];
    RunCharacterization(o);
    assert !Run(o).aborted;
    assert urls[..|urls|] == urls;
  }

  /** A validated list of direct links whose downloads all succeed: no playlist query, one
      call per entry in list order, each weighted 1/count of the total. */
  lemma DirectLinksTrace(inp: Inputs, hidden: bool, answers: seq<seq<string>>, outcomes: seq<bool>, playlistCount: int)
    requires |answers| == |inp.items| && |outcomes| >= |inp.items|
    requires |outcomes| >= |Expansion(inp.items, answers)|
    requires Validate(inp).Ok?
    requires forall i :: 0 <= i < |inp.items| ==> !Contains(inp.items[i], PlaylistMarker)
    requires forall j :: 0 <= j < |inp.items| ==> outcomes[j]
    ensures StartTrace(inp, hidden, answers, outcomes, playlistCount) ==
        StartPrelude()
        + Downloads(inp.items, Validate(inp).value, WeightFor(|inp.items|), playlistCount)
        + [CompleteProgress, SetEnabled, SendNotification(Success, SongsDownloaded), SendRemoveAbort]
  {
    ExpansionOfDirectLinks(inp.items, answers);
    AllSucceededTrace(inp, hidden, answers, outcomes, playlistCount);
    assert StartPrelude() + [] == StartPrelude();
  }
}
