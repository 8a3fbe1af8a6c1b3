/**
 * The Stalker-style portal endpoint (`onRequest`): a set-top box sends a GET
 * request naming an `action`, and gets back a JSON body under the key `js`.
 *
 * `Respond` is the specification of one request. The network fetch of the
 * playlist, the two clock readings and the random strings of a handshake are
 * its inputs. `OnRequest` is the handler of the source, which runs the
 * playlist parser method; it is proved to compute `Respond`.
 */
module Portal {
  import opened Wrappers
  import opened Text
  import opened Playlist
  import opened DeviceStore

  /** The MAC reported back when the request carries none. */
  const DefaultMac: string := "00:1A:79:00:00:00"
  const PageSize: nat := 14
  /** The list sent with an unknown action. */
  const SupportedActions: seq<string> := ["handshake", "get_profile", "get_all_channels", "create_link"]
  /** The actions the dispatch actually handles. */
  const HandledActions: seq<string> :=
    ["handshake", "get_profile", "get_localization", "get_all_channels", "get_ordered_list", "create_link"]

  /** The CORS and content-type headers of every JSON reply. */
  const JsonHeaders: seq<(string, string)> := [
    ("Content-Type", "application/json"),
    ("Access-Control-Allow-Origin", "*"),
    ("Access-Control-Allow-Methods", "GET, POST, OPTIONS"),
    ("Access-Control-Allow-Headers", "Content-Type, X-MAC, MAC")]

  /** The headers of the reply to a CORS preflight. */
  const PreflightHeaders: seq<(string, string)> := JsonHeaders[1..]

  /**
   * What the runtime reports for the headers `X-MAC` and `MAC` and the query
   * parameters `mac`, `action` and `cmd`: absent, or their text.
   */
  datatype Request = Request(
    xMacHeader: Option<string>, macHeader: Option<string>, macParam: Option<string>,
    action: Option<string>, cmd: Option<string>)

  /** The random strings a handshake hands out, drawn outside the model. */
  datatype Entropy = Entropy(
    token: string, random: string, sn: string, deviceId: string, deviceId2: string, signature: string)

  datatype Language = Language(isoCode: string, name: string)

  /** The object under `js` in the reply body, one variant per shape. */
  datatype Response =
    | Handshake(
        token: string, random: string, pkPath: string, apiPath: string, locale: string,
        mac: string, stbType: string, sn: string, deviceId: string, deviceId2: string,
        signature: string, hwVersion: string, notValid: string, auth: string, metricsMac: string)
    | Profile(
        id: string, name: string, sname: string, created: int, storageName: string,
        lastChangeDate: int, mac: string, player: string, screensaverDelay: string,
        plasmaSaving: string, tsEnabled: string, tsEnableUrl: string, tsBufferUse: string,
        videoOut: string, aspect: string, screensaverType: string, hdmiEventReaction: string,
        playbackBufferSize: string, timezone: string)
    | Localization(languages: seq<Language>, timezones: seq<string>)
    | ChannelList(
        data: seq<Channel>, totalItems: nat, maxPageItems: nat, selectedItem: nat,
        curPage: nat, allPages: nat)
    | ChannelListError(data: seq<Channel>, totalItems: nat, error: string)
    | Link(id: string, cmd: string, load: int, priority: int)
    | LinkError(error: string)
    | UnknownAction(error: string, supportedActions: seq<string>)

  /** An HTTP reply: status, headers, and the `js` object if there is a body. */
  datatype Reply = Reply(status: nat, headers: seq<(string, string)>, body: Option<Response>)

  /** JavaScript truthiness of a header or parameter: present and non-empty. */
  predicate Truthy(v: Option<string>) {
    v.Some? && v.value != []
  }

  /** The device MAC: the first truthy of `X-MAC`, `MAC` and `mac`, if any. */
  function SelectMac(req: Request): (mac: Option<string>)
    ensures mac.None? <==> !Truthy(req.xMacHeader) && !Truthy(req.macHeader) && !Truthy(req.macParam)
    ensures mac.Some? ==> mac.value != []
    ensures Truthy(req.xMacHeader) ==> mac == req.xMacHeader
    ensures !Truthy(req.xMacHeader) && Truthy(req.macHeader) ==> mac == req.macHeader
    ensures !Truthy(req.xMacHeader) && !Truthy(req.macHeader) && Truthy(req.macParam) ==> mac == req.macParam
  {
    if Truthy(req.xMacHeader) then req.xMacHeader
    else if Truthy(req.macHeader) then req.macHeader
    else if Truthy(req.macParam) then req.macParam
    else None
  }

  /** The requested action; a missing or empty one means `handshake`. */
  function ActionOf(req: Request): (action: string)
    ensures action != []
  {
    if Truthy(req.action) then req.action.value else "handshake"
  }

  /** A non-empty `action` is dispatched as given; a missing or empty one as `handshake`. */
  lemma ActionChosen(req: Request)
    ensures Truthy(req.action) ==> ActionOf(req) == req.action.value
    ensures !Truthy(req.action) ==> ActionOf(req) == "handshake"
  {
  }

  /**
   * Whether the device counts as registered. Without a registry binding, or
   * without a MAC whose key is non-empty, every device does; otherwise only a
   * device whose key is stored.
   */
  predicate IsRegistered(registry: Option<map<string, DeviceRecord>>, mac: Option<string>) {
    if registry.Some? && mac.Some? && MacKey(mac.value) != [] then MacKey(mac.value) in registry.value
    else true
  }

  /** `Math.ceil(n / 14)`: the number of pages of `PageSize` items that hold `n` items. */
  function PagesFor(n: nat): (pages: nat)
    ensures pages * PageSize >= n
    ensures pages == 0 || (pages - 1) * PageSize < n
  {
    (n + PageSize - 1) / PageSize
  }

  /** `Math.floor(ms / 1000)`: whole seconds of a millisecond clock reading. */
  function Seconds(ms: int): (s: int)
    ensures s * 1000 <= ms < s * 1000 + 1000
  {
    ms / 1000
  }

  function HandshakeFor(mac: Option<string>, registered: bool, e: Entropy): Response {
    var shown := mac.GetOr(DefaultMac);
    Handshake(
      e.token, e.random, "/stalker_portal/c/", "/stalker_portal/api/", "en",
      shown, "MAG250", e.sn, e.deviceId, e.deviceId2, e.signature, "1.7-BD-00",
      if registered then "false" else "true", if registered then "1" else "0", shown)
  }

  function ProfileFor(mac: Option<string>, createdMs: int, changedMs: int): Response {
    Profile(
      "1", "Profile", "profile", Seconds(createdMs), "nfo_storage", Seconds(changedMs),
      mac.GetOr(DefaultMac), "ffmpeg", "0", "0", "1", "1", "1", "hdmi", "0", "none", "1", "0", "UTC")
  }

  function ListingOf(channels: seq<Channel>): Response {
    ChannelList(channels, |channels|, PageSize, 0, 1, PagesFor(|channels|))
  }

  const ListingFailure: Response := ChannelListError([], 0, "Failed to load channels")

  /**
   * The reply to one request. `fetched` is the playlist text the fetch
   * delivers, or `None` when the fetch fails; `createdMs` and `changedMs` are
   * the two clock readings of a profile; `e` holds the handshake's random strings.
   */
  function Respond(
    req: Request, registry: Option<map<string, DeviceRecord>>, fetched: Option<string>,
    createdMs: int, changedMs: int, e: Entropy): (r: Reply)
    ensures r.status == 200 && r.headers == JsonHeaders && r.body.Some?
  {
    var mac := SelectMac(req);
    var action := ActionOf(req);
    var js :=
      if action == "handshake" then HandshakeFor(mac, IsRegistered(registry, mac), e)
      else if action == "get_profile" then ProfileFor(mac, createdMs, changedMs)
      else if action == "get_localization" then Localization([Language("en_US", "English")], [])
      else if action == "get_all_channels" || action == "get_ordered_list" then
        (match fetched
         case Some(text) => ListingOf(Parse(text))
         case None => ListingFailure)
      else if action == "create_link" then
        (if Truthy(req.cmd) then Link("1", req.cmd.value, 100, 0) else LinkError("No channel specified"))
      else UnknownAction("Unknown action", SupportedActions);
    Reply(200, JsonHeaders, Some(js))
  }

  /** The contents of the registry binding, `None` when none is configured. */
  function Contents(registry: MacRegistry?): Option<map<string, DeviceRecord>>
    reads registry
  {
    if registry == null then None else Some(registry.entries)
  }

  /**
   * The handler: dispatch on the action, looking the device up in the
   * registry binding and running the parser on a fetched playlist. It
   * repeats the dispatch of `Respond` step by step; the properties of a
   * reply are stated as lemmas about `Respond`.
   */
  method OnRequest(
    req: Request, registry: MacRegistry?, fetched: Option<string>,
    createdMs: int, changedMs: int, e: Entropy) returns (reply: Reply)
    ensures reply == Respond(req, Contents(registry), fetched, createdMs, changedMs, e)
  {
    var mac := SelectMac(req);
    var normalized: Option<string> := None;
    if mac.Some? {
      normalized := Some(MacKey(mac.value));
    }
    var registered := true;
    if registry != null && normalized.Some? && normalized.value != [] {
      var record := registry.Get(normalized.value);
      registered := record.Some?;
    }
    var action := ActionOf(req);
    var js: Response;
    if action == "handshake" {
      js := HandshakeFor(mac, registered, e);
    } else if action == "get_profile" {
      js := ProfileFor(mac, createdMs, changedMs);
    } else if action == "get_localization" {
      js := Localization([Language("en_US", "English")], []);
    } else if action == "get_all_channels" || action == "get_ordered_list" {
      if fetched.Some? {
        var channels := ParseM3U(fetched.value);
        js := ListingOf(channels);
      } else {
        js := ListingFailure;
      }
    } else if action == "create_link" {
      if req.cmd.Some? && req.cmd.value != [] {
        js := Link("1", req.cmd.value, 100, 0);
      } else {
        js := LinkError("No channel specified");
      }
    } else {
      js := UnknownAction("Unknown action", SupportedActions);
    }
    reply := Reply(200, JsonHeaders, Some(js));
  }

  /** `onRequestOptions`: the CORS preflight reply, with no body. */
  function Preflight(): (r: Reply)
    ensures r.status == 204 && r.body.None?
    ensures forall h :: h in r.headers ==> h in JsonHeaders && h.0 != "Content-Type"
    ensures forall h :: h in JsonHeaders && h.0 != "Content-Type" ==> h in r.headers
  {
    Reply(204, PreflightHeaders, None)
  }

  // ---------------------------------------------------------------------------
  // Properties of the dispatch

  /** A request without an action, or with an empty one, is answered as a handshake. */
  lemma DefaultActionIsHandshake(
    req: Request, registry: Option<map<string, DeviceRecord>>, fetched: Option<string>,
    createdMs: int, changedMs: int, e: Entropy)
    requires !Truthy(req.action)
    ensures Respond(req, registry, fetched, createdMs, changedMs, e)
         == Respond(req.(action := Some("handshake")), registry, fetched, createdMs, changedMs, e)
  {
    assert SelectMac(req) == SelectMac(req.(action := Some("handshake")));
  }

  /**
   * A handshake reports `auth` "1" and `not_valid` "false" exactly when the
   * device counts as registered, and "0" and "true" otherwise; it echoes the
   * device MAC, or the default one, in `mac` and in `metrics.mac`.
   */
  lemma HandshakeReply(
    req: Request, registry: Option<map<string, DeviceRecord>>, fetched: Option<string>,
    createdMs: int, changedMs: int, e: Entropy)
    requires ActionOf(req) == "handshake"
    ensures var js := Respond(req, registry, fetched, createdMs, changedMs, e).body.value;
      && js.Handshake?
      && (js.auth == "1" <==> IsRegistered(registry, SelectMac(req)))
      && (js.auth == "1" || js.auth == "0")
      && (js.notValid == "false" <==> js.auth == "1")
      && js.mac == js.metricsMac
      && (SelectMac(req).Some? ==> js.mac == SelectMac(req).value)
      && (SelectMac(req).None? ==> js.mac == DefaultMac)
      && js.token == e.token && js.stbType == "MAG250"
  {
  }

  /** A device is refused only when the registry is bound and its key, non-empty, is not stored. */
  lemma RefusedOnlyWhenUnknown(registry: Option<map<string, DeviceRecord>>, mac: Option<string>)
    ensures !IsRegistered(registry, mac) <==>
      registry.Some? && mac.Some? && MacKey(mac.value) != [] && MacKey(mac.value) !in registry.value
  {
  }

  /** A MAC made only of colons has an empty key, so it is admitted whatever the registry holds. */
  lemma ColonsOnlyMacAdmitted(entries: map<string, DeviceRecord>, mac: string)
    requires forall i :: 0 <= i < |mac| ==> mac[i] == ':'
    ensures MacKey(mac) == []
    ensures IsRegistered(Some(entries), Some(mac))
  {
    MacKeyKeepsOthers(mac);
    var upper := ToUpper(mac);
    assert forall i :: 0 <= i < |upper| ==> upper[i] == ':';
    assert multiset(upper)[':' := 0] == multiset{} by {
      forall c | c != ':' ensures c !in upper {
      }
    }
  }

  /**
   * The check ignores letter case and colons: a MAC, its upper-cased form and
   * its storage key are all registered or all not.
   */
  lemma RegistrationIgnoresFormatting(registry: Option<map<string, DeviceRecord>>, mac: string)
    ensures IsRegistered(registry, Some(ToUpper(mac))) == IsRegistered(registry, Some(mac))
    ensures IsRegistered(registry, Some(MacKey(mac))) == IsRegistered(registry, Some(mac))
  {
    MacKeyIgnoresCase(mac);
    MacKeyIdempotent(mac);
  }

  /**
   * A channel listing with a fetched playlist serves the parsed channels, all
   * of them well formed and in increasing id order, with their count and the
   * number of 14-item pages that hold them.
   */
  lemma ChannelListing(
    req: Request, registry: Option<map<string, DeviceRecord>>, text: string,
    createdMs: int, changedMs: int, e: Entropy)
    requires ActionOf(req) == "get_all_channels" || ActionOf(req) == "get_ordered_list"
    ensures var js := Respond(req, registry, Some(text), createdMs, changedMs, e).body.value;
      && js.ChannelList?
      && js.data == Parse(text)
      && js.totalItems == |js.data|
      && js.maxPageItems == PageSize && js.selectedItem == 0 && js.curPage == 1
      && js.allPages == PagesFor(js.totalItems)
      && js.allPages * PageSize >= js.totalItems
      && (js.allPages == 0 <==> js.totalItems == 0)
      && AllWellFormed(js.data) && Increasing(js.data)
  {
    ListingServed(req, registry, text, createdMs, changedMs, e);
    ParseWellFormed(text);
    ListingPages(Parse(text));
  }

  /** A listing request with a fetched playlist is answered with the listing of the parsed text. */
  lemma ListingServed(
    req: Request, registry: Option<map<string, DeviceRecord>>, text: string,
    createdMs: int, changedMs: int, e: Entropy)
    requires ActionOf(req) == "get_all_channels" || ActionOf(req) == "get_ordered_list"
    ensures Respond(req, registry, Some(text), createdMs, changedMs, e).body == Some(ListingOf(Parse(text)))
  {
  }

  /** The listing of any channel list: the list itself, its count, and the pages that hold it. */
  lemma ListingPages(channels: seq<Channel>)
    ensures var js := ListingOf(channels);
      && js.ChannelList? && js.data == channels && js.totalItems == |channels|
      && js.maxPageItems == PageSize && js.selectedItem == 0 && js.curPage == 1
      && js.allPages == PagesFor(|channels|)
      && js.allPages * PageSize >= |channels|
      && (js.allPages == 0 <==> |channels| == 0)
  {
  }

  /** No items need no page, 14 need one, 15 need two and 30 need three. */
  lemma PageCountExamples()
    ensures PagesFor(0) == 0 && PagesFor(1) == 1 && PagesFor(14) == 1
    ensures PagesFor(15) == 2 && PagesFor(30) == 3
  {
  }

  /** A failed fetch yields an empty list with the error message, never an exception. */
  lemma ListingFetchFails(
    req: Request, registry: Option<map<string, DeviceRecord>>,
    createdMs: int, changedMs: int, e: Entropy)
    requires ActionOf(req) == "get_all_channels" || ActionOf(req) == "get_ordered_list"
    ensures var js := Respond(req, registry, None, createdMs, changedMs, e).body.value;
      js.ChannelListError? && js.data == [] && js.totalItems == 0 && js.error == "Failed to load channels"
  {
  }

  /** `get_ordered_list` is answered exactly as `get_all_channels`. */
  lemma OrderedListIsAllChannels(
    req: Request, registry: Option<map<string, DeviceRecord>>, fetched: Option<string>,
    createdMs: int, changedMs: int, e: Entropy)
    ensures Respond(req.(action := Some("get_ordered_list")), registry, fetched, createdMs, changedMs, e)
         == Respond(req.(action := Some("get_all_channels")), registry, fetched, createdMs, changedMs, e)
  {
    assert SelectMac(req.(action := Some("get_ordered_list"))) == SelectMac(req);
    assert SelectMac(req.(action := Some("get_all_channels"))) == SelectMac(req);
  }

  /** `create_link` echoes a non-empty `cmd` as the stream to play, and otherwise reports an error. */
  lemma CreateLinkReply(
    req: Request, registry: Option<map<string, DeviceRecord>>, fetched: Option<string>,
    createdMs: int, changedMs: int, e: Entropy)
    requires ActionOf(req) == "create_link"
    ensures var js := Respond(req, registry, fetched, createdMs, changedMs, e).body.value;
      && (js.Link? <==> Truthy(req.cmd))
      && (js.Link? ==> js.cmd == req.cmd.value && js.id == "1" && js.load == 100 && js.priority == 0)
      && (!js.Link? ==> js == LinkError("No channel specified"))
  {
  }

  /**
   * The profile's `created` and `last_change_date` are the clock readings in
   * whole seconds, rounded down; two equal readings give equal values.
   */
  lemma ProfileReply(
    req: Request, registry: Option<map<string, DeviceRecord>>, fetched: Option<string>,
    createdMs: int, changedMs: int, e: Entropy)
    requires ActionOf(req) == "get_profile"
    ensures var js := Respond(req, registry, fetched, createdMs, changedMs, e).body.value;
      && js.Profile?
      && js.created * 1000 <= createdMs < js.created * 1000 + 1000
      && js.lastChangeDate * 1000 <= changedMs < js.lastChangeDate * 1000 + 1000
      && (createdMs == changedMs ==> js.created == js.lastChangeDate)
      && js.mac == SelectMac(req).GetOr(DefaultMac)
  {
  }

  /** Exactly the actions outside the handled six get the unknown-action reply, with the fixed list. */
  lemma UnknownActionReply(
    req: Request, registry: Option<map<string, DeviceRecord>>, fetched: Option<string>,
    createdMs: int, changedMs: int, e: Entropy)
    ensures var js := Respond(req, registry, fetched, createdMs, changedMs, e).body.value;
      && (js.UnknownAction? <==> ActionOf(req) !in HandledActions)
      && (js.UnknownAction? ==> js == UnknownAction("Unknown action", SupportedActions))
  {
  }

  /**
   * The list of supported actions sent with an unknown action names only
   * handled actions, but leaves out two that are handled.
   */
  lemma SupportedActionsIncomplete()
    ensures forall a :: a in SupportedActions ==> a in HandledActions
    ensures "get_localization" in HandledActions && "get_localization" !in SupportedActions
    ensures "get_ordered_list" in HandledActions && "get_ordered_list" !in SupportedActions
  {
  }
}
