/**
 * The playback-session logic of the player component: the `hls` slot
 * (src/App.jsx:13), the selection effect (src/App.jsx:16-19) with
 * `playChannel` (src/App.jsx:84-86) and `initializePlayer`
 * (src/App.jsx:88-107), and the cleanup handler (src/App.jsx:22-26).
 *
 * hls.js instances are `Engine` objects that count how often they were
 * destroyed. The capability checks `Hls.isSupported()` and
 * `videoRef.canPlayType('application/vnd.apple.mpegurl')` are inputs to each
 * selection. Every call the player makes on an engine, on the video element
 * or on the error signal is appended to a ghost trace, so that the order of
 * releasing and acquiring engines can be stated.
 */
module Session {

  /** The message `initializePlayer` puts in the error signal when neither playback path is available. */
  const UnsupportedMessage: string := "This browser does not support HLS playback."

  /** One call made by the player, in the order it was made. Engines are named by their serial number. */
  datatype Action =
    | Construct(engine: nat)
    | LoadSource(engine: nat, url: string)
    | AttachMedia(engine: nat)
    | OnManifestParsed(engine: nat)
    | Destroy(engine: nat)
    | SetVideoSrc(url: string)
    | OnLoadedMetadata
    | SetError(message: string)

  /** The engines constructed and not destroyed since, after the calls in `trace`. */
  function Live(trace: seq<Action>): set<nat>
    decreases |trace|
  {
    if trace == [] then {}
    else
      var before := Live(trace[..|trace| - 1]);
      match trace[|trace| - 1]
      case Construct(e) => before + {e}
      case Destroy(e) => before - {e}
      case _ => before
  }

  /** No engine is constructed while another one is still live: release always comes before acquire. */
  predicate NoOverlap(trace: seq<Action>) {
    forall i :: 0 <= i < |trace| && trace[i].Construct? ==> Live(trace[..i]) == {}
  }

  /** A trace without overlap stays without overlap when a call is appended that constructs nothing, or constructs while nothing is live. */
  lemma NoOverlapExtend(trace: seq<Action>, a: Action)
    requires NoOverlap(trace)
    requires a.Construct? ==> Live(trace) == {}
    ensures NoOverlap(trace + [a])
  {
    var t := trace + [a];
    forall i | 0 <= i < |t| && t[i].Construct? ensures Live(t[..i]) == {} {
      if i < |trace| {
        assert t[..i] == trace[..i];
      } else {
        assert t[..i] == trace;
      }
    }
  }

  /** A call on an engine's source, media, listener, the video element or the error signal. */
  predicate IsQuiet(a: Action) {
    !a.Construct? && !a.Destroy?
  }

  /** Calls that neither construct nor destroy leave the live engines alone and cannot create overlap. */
  lemma {:induction false} QuietCalls(trace: seq<Action>, more: seq<Action>)
    requires forall i :: 0 <= i < |more| ==> IsQuiet(more[i])
    ensures Live(trace + more) == Live(trace)
    ensures NoOverlap(trace) ==> NoOverlap(trace + more)
    decreases |more|
  {
    if more == [] {
      assert trace + more == trace;
    } else {
      var init := more[..|more| - 1];
      QuietCalls(trace, init);
      assert (trace + more)[..|trace + more| - 1] == trace + init;
      assert (trace + more)[|trace + more| - 1] == more[|more| - 1];
      if NoOverlap(trace) {
        NoOverlapExtend(trace + init, more[|more| - 1]);
        assert trace + init + [more[|more| - 1]] == trace + more;
      }
    }
  }

  lemma NoOverlapPrefix(trace: seq<Action>)
    requires NoOverlap(trace) && trace != []
    ensures NoOverlap(trace[..|trace| - 1])
  {
    var init := trace[..|trace| - 1];
    forall i | 0 <= i < |init| && init[i].Construct? ensures Live(init[..i]) == {} {
      assert init[..i] == trace[..i];
    }
  }

  /** Without overlap, at most one engine is live at any time. */
  lemma {:induction false} AtMostOneLive(trace: seq<Action>)
    requires NoOverlap(trace)
    ensures |Live(trace)| <= 1
    decreases |trace|
  {
    if trace != [] {
      var init := trace[..|trace| - 1];
      NoOverlapPrefix(trace);
      AtMostOneLive(init);
      match trace[|trace| - 1]
      case Construct(e) =>
        assert trace[..|trace| - 1] == init;
      case Destroy(e) =>
        assert Live(trace) <= Live(init);
      case _ =>
    }
  }

  /** An hls.js `Hls` instance, reduced to what the player does with it. */
  class Engine {
    ghost const serial: nat
    var source: string
    var attachedToVideo: bool
    var playsOnManifestParsed: bool
    var destroyCount: nat

    /** `new Hls()` */
    constructor (ghost serial: nat)
      ensures this.serial == serial
      ensures source == "" && !attachedToVideo && !playsOnManifestParsed && destroyCount == 0
    {
      this.serial := serial;
      source := "";
      attachedToVideo := false;
      playsOnManifestParsed := false;
      destroyCount := 0;
    }

    /** `hls.loadSource(url)` */
    method LoadSource(url: string)
      modifies this`source
      ensures source == url
    {
      source := url;
    }

    /** `hls.attachMedia(videoRef)` */
    method AttachMedia()
      modifies this`attachedToVideo
      ensures attachedToVideo
    {
      attachedToVideo := true;
    }

    /** `hls.on(Hls.Events.MANIFEST_PARSED, ...)`: playback starts once the manifest is parsed. */
    method OnManifestParsed()
      modifies this`playsOnManifestParsed
      ensures playsOnManifestParsed
    {
      playsOnManifestParsed := true;
    }

    /** `hls.destroy()`: nothing stops it from being called again. */
    method Destroy()
      modifies this`destroyCount
      ensures destroyCount == old(destroyCount) + 1
    {
      destroyCount := destroyCount + 1;
    }
  }

  /** The destroy call `initializePlayer` and the cleanup make on the slot's engine, if there is one. */
  ghost function Released(e: Engine?): seq<Action> {
    if e == null then [] else [Destroy(e.serial)]
  }

  /** The component's session state: the `hls` slot, the selection signal, the video element and the error signal. */
  class Player {
    /** `let hls = null`: once assigned, never reset to `null`. */
    var hls: Engine?
    var selectedChannelUrl: string
    /** `videoRef.src` */
    var videoSrc: string
    /** The `loadedmetadata` listeners added to the video element. */
    var metadataListeners: nat
    var error: string
    ghost var constructed: nat
    ghost var trace: seq<Action>

    /**
     * The trace has no overlap; the slot holds the last engine constructed,
     * and that engine is the only one that can still be live.
     */
    ghost predicate Valid()
      reads this, hls
    {
      NoOverlap(trace) &&
      (hls == null <==> constructed == 0) &&
      (hls == null ==> Live(trace) == {}) &&
      (hls != null ==> hls.serial == constructed - 1 && Live(trace) == (if hls.destroyCount == 0 then {hls.serial} else {}))
    }

    constructor ()
      ensures Valid()
      ensures hls == null && selectedChannelUrl == "" && videoSrc == "" && metadataListeners == 0 && error == ""
      ensures trace == []
    {
      hls := null;
      selectedChannelUrl := "";
      videoSrc := "";
      metadataListeners := 0;
      error := "";
      constructed := 0;
      trace := [];
    }

    /**
     * `if (hls) { hls.destroy(); }`, shared by `initializePlayer`
     * (src/App.jsx:89-91) and the cleanup (src/App.jsx:23-25): destroys the
     * engine in the slot, if any, and leaves it in the slot.
     */
    method ReleaseEngine()
      requires Valid()
      modifies this`trace, hls
      ensures Valid()
      ensures old(hls) != null ==> hls.destroyCount == old(hls.destroyCount) + 1
      ensures old(hls) != null ==> hls.source == old(hls.source) && hls.attachedToVideo == old(hls.attachedToVideo) && hls.playsOnManifestParsed == old(hls.playsOnManifestParsed)
      ensures trace == old(trace) + Released(hls)
      ensures Live(trace) == {}
    {
      if hls != null {
        hls.Destroy();
        NoOverlapExtend(trace, Destroy(hls.serial));
        trace := trace + [Destroy(hls.serial)];
      }
    }

    /** src/App.jsx:93-98: a fresh engine for the selected channel, attached to the video element, takes the slot. */
    method StartEngine()
      requires Valid() && Live(trace) == {}
      modifies this`hls, this`trace, this`constructed
      ensures Valid()
      ensures hls != null && fresh(hls) && hls.serial == old(constructed)
      ensures hls.source == selectedChannelUrl && hls.attachedToVideo && hls.playsOnManifestParsed && hls.destroyCount == 0
      ensures trace == old(trace) + [Construct(hls.serial), LoadSource(hls.serial, selectedChannelUrl), AttachMedia(hls.serial), OnManifestParsed(hls.serial)]
    {
      var engine := new Engine(constructed);
      NoOverlapExtend(trace, Construct(constructed));
      trace := trace + [Construct(constructed)];
      constructed := constructed + 1;
      hls := engine;
      engine.LoadSource(selectedChannelUrl);
      engine.AttachMedia();
      engine.OnManifestParsed();
      var calls := [LoadSource(engine.serial, selectedChannelUrl), AttachMedia(engine.serial), OnManifestParsed(engine.serial)];
      QuietCalls(trace, calls);
      trace := trace + calls;
    }

    /** src/App.jsx:99-103: the video element plays the selected channel itself; the slot is left alone. */
    method PlayNatively()
      requires Valid()
      modifies this`videoSrc, this`metadataListeners, this`trace
      ensures Valid()
      ensures videoSrc == selectedChannelUrl && metadataListeners == old(metadataListeners) + 1
      ensures trace == old(trace) + [SetVideoSrc(selectedChannelUrl), OnLoadedMetadata]
    {
      videoSrc := selectedChannelUrl;
      metadataListeners := metadataListeners + 1;
      QuietCalls(trace, [SetVideoSrc(selectedChannelUrl), OnLoadedMetadata]);
      trace := trace + [SetVideoSrc(selectedChannelUrl), OnLoadedMetadata];
    }

    /** src/App.jsx:104-105: neither path is available; the slot is left alone. */
    method ReportUnsupported()
      requires Valid()
      modifies this`error, this`trace
      ensures Valid()
      ensures error == UnsupportedMessage
      ensures trace == old(trace) + [SetError(UnsupportedMessage)]
    {
      error := UnsupportedMessage;
      QuietCalls(trace, [SetError(UnsupportedMessage)]);
      trace := trace + [SetError(UnsupportedMessage)];
    }

    /**
     * `initializePlayer()`: destroy the engine in the slot first; then, when
     * hls.js is supported and a channel is selected, construct a new engine
     * for it; otherwise play natively when the video element can; otherwise
     * report that playback is unsupported. Only the first path touches the slot.
     */
    method InitializePlayer(hlsSupported: bool, canPlayNative: bool)
      requires Valid()
      modifies this, hls
      ensures Valid()
      ensures selectedChannelUrl == old(selectedChannelUrl)
      ensures constructed == old(constructed) + (if hls == old(hls) then 0 else 1)
      ensures old(hls) != null ==> old(hls).destroyCount == old(hls.destroyCount) + 1
      ensures old(hls) != null ==>
        old(hls).source == old(hls.source) && old(hls).attachedToVideo == old(hls.attachedToVideo) &&
        old(hls).playsOnManifestParsed == old(hls.playsOnManifestParsed)
      ensures hlsSupported && selectedChannelUrl != "" ==>
        hls != null && fresh(hls) &&
        hls.source == selectedChannelUrl && hls.attachedToVideo && hls.playsOnManifestParsed && hls.destroyCount == 0 &&
        videoSrc == old(videoSrc) && metadataListeners == old(metadataListeners) && error == old(error) &&
        trace == old(trace) + Released(old(hls)) +
          [Construct(hls.serial), LoadSource(hls.serial, selectedChannelUrl), AttachMedia(hls.serial), OnManifestParsed(hls.serial)]
      ensures !(hlsSupported && selectedChannelUrl != "") && canPlayNative ==>
        hls == old(hls) && videoSrc == selectedChannelUrl && metadataListeners == old(metadataListeners) + 1 && error == old(error) &&
        trace == old(trace) + Released(old(hls)) + [SetVideoSrc(selectedChannelUrl), OnLoadedMetadata]
      ensures !(hlsSupported && selectedChannelUrl != "") && !canPlayNative ==>
        hls == old(hls) && videoSrc == old(videoSrc) && metadataListeners == old(metadataListeners) && error == UnsupportedMessage &&
        trace == old(trace) + Released(old(hls)) + [SetError(UnsupportedMessage)]
    {
      ReleaseEngine();
      if hlsSupported && selectedChannelUrl != "" {
        StartEngine();
      } else if canPlayNative {
        PlayNatively();
      } else {
        ReportUnsupported();
      }
    }

    /**
     * A click on a channel (`playChannel`) followed by the selection effect:
     * the signal takes the URL, and a non-empty URL runs `initializePlayer`.
     * An empty URL changes nothing else.
     */
    method Select(url: string, hlsSupported: bool, canPlayNative: bool)
      requires Valid()
      modifies this, hls
      ensures Valid()
      ensures selectedChannelUrl == url
      ensures constructed == old(constructed) + (if hls == old(hls) then 0 else 1)
      ensures url == "" ==>
        hls == old(hls) && (hls != null ==> hls.destroyCount == old(hls.destroyCount)) &&
        videoSrc == old(videoSrc) && metadataListeners == old(metadataListeners) && error == old(error) && trace == old(trace)
      ensures url == "" ==> old(hls) == null || unchanged(old(hls))
      ensures url != "" && old(hls) != null ==> old(hls).destroyCount == old(hls.destroyCount) + 1
      ensures old(hls) != null ==>
        old(hls).source == old(hls.source) && old(hls).attachedToVideo == old(hls.attachedToVideo) &&
        old(hls).playsOnManifestParsed == old(hls.playsOnManifestParsed)
      ensures url != "" && hlsSupported ==>
        hls != null && fresh(hls) &&
        hls.source == url && hls.attachedToVideo && hls.playsOnManifestParsed && hls.destroyCount == 0 &&
        videoSrc == old(videoSrc) && metadataListeners == old(metadataListeners) && error == old(error) &&
        trace == old(trace) + Released(old(hls)) + [Construct(hls.serial), LoadSource(hls.serial, url), AttachMedia(hls.serial), OnManifestParsed(hls.serial)]
      ensures url != "" && !hlsSupported && canPlayNative ==>
        hls == old(hls) && videoSrc == url && metadataListeners == old(metadataListeners) + 1 && error == old(error) &&
        trace == old(trace) + Released(old(hls)) + [SetVideoSrc(url), OnLoadedMetadata]
      ensures url != "" && !hlsSupported && !canPlayNative ==>
        hls == old(hls) && videoSrc == old(videoSrc) && metadataListeners == old(metadataListeners) && error == UnsupportedMessage &&
        trace == old(trace) + Released(old(hls)) + [SetError(UnsupportedMessage)]
    {
      selectedChannelUrl := url;
      if selectedChannelUrl != "" {
        InitializePlayer(hlsSupported, canPlayNative);
      }
    }

    /**
     * The cleanup handler (src/App.jsx:22-26): destroys the engine in the
     * slot. Since the slot is never cleared, it is a no-op only while no
     * engine was ever constructed; otherwise it destroys the last engine
     * again, however often it was destroyed before.
     */
    method Dispose()
      requires Valid()
      modifies this`trace, hls
      ensures Valid()
      ensures (trace == old(trace)) <==> hls == null
      ensures hls != null ==> hls.destroyCount == old(hls.destroyCount) + 1 && trace == old(trace) + [Destroy(hls.serial)]
      ensures hls != null ==> hls.source == old(hls.source) && hls.attachedToVideo == old(hls.attachedToVideo) && hls.playsOnManifestParsed == old(hls.playsOnManifestParsed)
      ensures Live(trace) == {}
    {
      ReleaseEngine();
    }
  }

  /** Switching channels with hls.js available destroys the first engine before the second is constructed. */
  method SwitchChannelsScenario() {
    var player := new Player();
    player.Select("http://x/1", true, true);
    var first := player.hls;
    player.Select("http://x/2", true, true);
    var second := player.hls;
    assert first.destroyCount == 1 && second.destroyCount == 0 && second.source == "http://x/2";
    assert player.trace == [
      Construct(first.serial), LoadSource(first.serial, "http://x/1"), AttachMedia(first.serial), OnManifestParsed(first.serial),
      Destroy(first.serial),
      Construct(second.serial), LoadSource(second.serial, "http://x/2"), AttachMedia(second.serial), OnManifestParsed(second.serial)];
    player.Dispose();
    assert second.destroyCount == 1 && Live(player.trace) == {};
  }

  /** Without either playback path no engine is ever constructed, and the cleanup does nothing. */
  method UnsupportedScenario() {
    var player := new Player();
    player.Select("http://x/1", false, false);
    assert player.hls == null && player.error == UnsupportedMessage;
    assert player.trace == [SetError(UnsupportedMessage)];
    player.Dispose();
    assert player.trace == [SetError(UnsupportedMessage)];
  }

  /** How many `destroy()` calls on engine `e` the trace records. */
  function Destroys(trace: seq<Action>, e: nat): nat
    decreases |trace|
  {
    if trace == [] then 0
    else Destroys(trace[..|trace| - 1], e) + if trace[|trace| - 1] == Destroy(e) then 1 else 0
  }

  /** Counting distributes over concatenation. */
  lemma {:induction false} DestroysAppend(trace: seq<Action>, more: seq<Action>, e: nat)
    ensures Destroys(trace + more, e) == Destroys(trace, e) + Destroys(more, e)
    decreases |more|
  {
    if more != [] {
      var init := more[..|more| - 1];
      DestroysAppend(trace, init, e);
      assert (trace + more)[..|trace + more| - 1] == trace + init;
    } else {
      assert trace + more == trace;
    }
  }

  /**
   * The trace constructs exactly the engines `0 .. n - 1` and names no other
   * engine; each of them has been destroyed once, except the last one, which
   * has not been destroyed yet when `pending` holds.
   */
  ghost predicate Balanced(trace: seq<Action>, n: nat, pending: bool) {
    (pending ==> n > 0) &&
    (forall a :: a in trace && (a.Construct? || a.Destroy?) ==> a.engine < n) &&
    (forall i :: 0 <= i < n ==> Construct(i) in trace) &&
    (forall i :: 0 <= i < n ==> Destroys(trace, i) == if pending && i == n - 1 then 0 else 1)
  }

  /** A trace that never names engine `e` has no `destroy()` call on it. */
  lemma {:induction false} DestroysAbsent(trace: seq<Action>, e: nat)
    requires Destroy(e) !in trace
    ensures Destroys(trace, e) == 0
    decreases |trace|
  {
    if trace != [] {
      DestroysAbsent(trace[..|trace| - 1], e);
    }
  }

  /** Calls that neither construct nor destroy keep the trace balanced. */
  lemma BalancedQuiet(trace: seq<Action>, n: nat, pending: bool, more: seq<Action>)
    requires Balanced(trace, n, pending)
    requires forall i :: 0 <= i < |more| ==> IsQuiet(more[i])
    ensures Balanced(trace + more, n, pending)
  {
    forall a | a in more ensures !a.Construct? && !a.Destroy? {
      var i :| 0 <= i < |more| && more[i] == a;
    }
    forall i | 0 <= i < n ensures Destroys(trace + more, i) == Destroys(trace, i) {
      DestroysAppend(trace, more, i);
      DestroysAbsent(more, i);
    }
  }

  /** Destroying the last engine settles it. */
  lemma BalancedRelease(trace: seq<Action>, n: nat)
    requires Balanced(trace, n, true)
    ensures Balanced(trace + [Destroy(n - 1)], n, false)
  {
    var last := n - 1;
    var t := trace + [Destroy(last)];
    forall i | 0 <= i < n ensures Destroys(t, i) == 1 {
      DestroysAppend(trace, [Destroy(last)], i);
      assert [Destroy(last)][..0] == [];
    }
    forall a | a in t && (a.Construct? || a.Destroy?) ensures a.engine < n {
      assert a in trace || a == Destroy(last);
    }
    forall i | 0 <= i < n ensures Construct(i) in t {
      assert Construct(i) in trace;
    }
  }

  /** Constructing engine `n` and starting it, once every earlier engine is settled, leaves it pending. */
  lemma BalancedConstruct(trace: seq<Action>, n: nat, url: string)
    requires Balanced(trace, n, false)
    ensures Balanced(trace + [Construct(n), LoadSource(n, url), AttachMedia(n), OnManifestParsed(n)], n + 1, true)
  {
    var more := [Construct(n), LoadSource(n, url), AttachMedia(n), OnManifestParsed(n)];
    forall i | 0 <= i <= n ensures Destroys(trace + more, i) == Destroys(trace, i) {
      DestroysAppend(trace, more, i);
      DestroysAbsent(more, i);
    }
    DestroysAbsent(trace, n);
  }

  /**
   * What holds between the selections of a session with constant hls.js
   * support: `engines[i]` is the engine constructed `i`-th; all but the one
   * in the slot were destroyed once, the one in the slot not yet, and the
   * trace agrees.
   */
  ghost predicate Tracked(player: Player, engines: seq<Engine>, hlsSupported: bool)
    reads player, player.hls, set i | 0 <= i < |engines| :: engines[i]
  {
    player.Valid() &&
    |engines| == player.constructed &&
    (forall i :: 0 <= i < |engines| ==> engines[i].serial == i) &&
    (player.hls != null ==> player.hls == engines[|engines| - 1] && player.hls.destroyCount == 0) &&
    (forall i :: 0 <= i < |engines| && engines[i] != player.hls ==> engines[i].destroyCount == 1) &&
    (!hlsSupported ==> player.hls == null) &&
    Balanced(player.trace, |engines|, player.hls != null)
  }

  /** One selection of a session with constant hls.js support keeps the session tracked, adding the engine it constructs. */
  method SelectTracked(player: Player, ghost engines: seq<Engine>, url: string, hlsSupported: bool, canPlayNative: bool)
      returns (ghost engines': seq<Engine>)
    requires Tracked(player, engines, hlsSupported)
    modifies player, player.hls
    ensures Tracked(player, engines', hlsSupported)
    ensures engines' == engines || (|engines'| == |engines| + 1 && engines'[..|engines|] == engines && fresh(engines'[|engines|]))
  {
    var before := player.hls;
    ghost var t := player.trace;
    ghost var n := |engines|;
    engines' := engines;
    if url == "" {
      player.Select(url, hlsSupported, canPlayNative);
    } else if hlsSupported {
      player.Select(url, hlsSupported, canPlayNative);
      if before != null {
        BalancedRelease(t, n);
      } else {
        assert t + Released(before) == t;
      }
      assert player.hls.serial == n;
      BalancedConstruct(t + Released(before), player.hls.serial, url);
      engines' := engines + [player.hls];
      forall i | 0 <= i < n ensures engines'[i].destroyCount == 1 {
        if engines[i] != before {
          assert engines[i].destroyCount == old(engines[i].destroyCount);
        }
      }
    } else if canPlayNative {
      player.Select(url, hlsSupported, canPlayNative);
      BalancedQuiet(t, n, false, [SetVideoSrc(url), OnLoadedMetadata]);
    } else {
      player.Select(url, hlsSupported, canPlayNative);
      BalancedQuiet(t, n, false, [SetError(UnsupportedMessage)]);
    }
  }

  /**
   * A whole session in which `Hls.isSupported()` gives the same answer at
   * every selection, as it does within one page: the channels in `urls` are
   * selected in turn and then the component is cleaned up. `engines[i]` is
   * the engine constructed `i`-th. Each of them is destroyed exactly once,
   * both as an object and in the trace, which holds one `Destroy` call per
   * `Construct` call and names no other engine; none is left live.
   */
  method ConstantSupportSession(urls: seq<string>, hlsSupported: bool, canPlayNative: bool) returns (player: Player, ghost engines: seq<Engine>)
    ensures player.Valid() && Live(player.trace) == {}
    ensures |engines| == player.constructed
    ensures forall i :: 0 <= i < |engines| ==> engines[i].serial == i && engines[i].destroyCount == 1
    ensures Balanced(player.trace, |engines|, false)
  {
    player := new Player();
    engines := [];
    for k := 0 to |urls|
      invariant fresh(player) && Tracked(player, engines, hlsSupported)
      invariant forall i :: 0 <= i < |engines| ==> fresh(engines[i])
    {
      engines := SelectTracked(player, engines, urls[k], hlsSupported, canPlayNative);
    }
    ghost var t := player.trace;
    player.Dispose();
    if player.hls != null {
      BalancedRelease(t, |engines|);
    }
  }

  /** Because the slot is never cleared, an engine already destroyed is destroyed again by later selections and by the cleanup. */
  method RepeatedDestroyScenario() {
    var player := new Player();
    player.Select("http://x/1", true, true);
    var engine := player.hls;
    player.Select("http://x/2", false, true);
    assert player.hls == engine && engine.destroyCount == 1 && player.videoSrc == "http://x/2";
    player.Select("http://x/3", false, false);
    assert player.hls == engine && engine.destroyCount == 2;
    player.Dispose();
    assert engine.destroyCount == 3;
  }
}
