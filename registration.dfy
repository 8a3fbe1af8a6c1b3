/**
 * The registration endpoint (`onRequestPost`): a JSON body carrying a `mac`
 * is validated against the pattern of six colon-separated hexadecimal pairs,
 * and a valid MAC is stored in the registry under its key.
 *
 * `Outcome` and `RegistryAfter` are the specification of one request;
 * `OnRequestPost` is the handler, proved to compute them.
 */
module Registration {
  import opened Wrappers
  import opened Text
  import opened DeviceStore
  import Portal

  const SuccessMessage: string := "Device registered successfully"
  const InvalidFormatError: string := "Invalid MAC address format"
  const InvalidRequestError: string := "Invalid request"

  // ---------------------------------------------------------------------------
  // The pattern /^([0-9A-Fa-f]{2}:){5}([0-9A-Fa-f]{2})$/

  predicate IsHexDigit(c: char) {
    '0' <= c <= '9' || 'A' <= c <= 'F' || 'a' <= c <= 'f'
  }

  predicate IsHexPair(s: string) {
    |s| == 2 && IsHexDigit(s[0]) && IsHexDigit(s[1])
  }

  /** `n` groups `hh:` followed by a final pair `hh`, and nothing else. */
  predicate Groups(s: string, n: nat)
    decreases n
  {
    if n == 0 then IsHexPair(s)
    else |s| >= 3 && IsHexPair(s[..2]) && s[2] == ':' && Groups(s[3..], n - 1)
  }

  /** Whether the MAC pattern accepts `s`; it is anchored at both ends. */
  predicate ValidMac(s: string) {
    Groups(s, 5)
  }

  /** The same language described by position: hex digits, with a colon at every third place. */
  predicate ColonEveryThird(s: string) {
    forall i :: 0 <= i < |s| ==> if i % 3 == 2 then s[i] == ':' else IsHexDigit(s[i])
  }

  lemma {:induction false} GroupsByPosition(s: string, n: nat)
    ensures Groups(s, n) <==> |s| == 3 * n + 2 && ColonEveryThird(s)
    decreases n
  {
    if n > 0 {
      GroupsByPosition(if |s| >= 3 then s[3..] else [], n - 1);
      if |s| >= 3 {
        var t := s[3..];
        if ColonEveryThird(s) {
          forall i | 0 <= i < |t| ensures if i % 3 == 2 then t[i] == ':' else IsHexDigit(t[i]) {
            assert t[i] == s[i + 3];
          }
        }
        if IsHexPair(s[..2]) && s[2] == ':' && ColonEveryThird(t) {
          forall i | 0 <= i < |s| ensures if i % 3 == 2 then s[i] == ':' else IsHexDigit(s[i]) {
            if i >= 3 {
              assert s[i] == t[i - 3];
            } else {
              assert i < 2 ==> s[i] == s[..2][i];
            }
          }
        }
      }
    }
  }

  /** A MAC is accepted exactly when it is 17 characters long with `hh:` groups by position. */
  lemma ValidMacByPosition(s: string)
    ensures ValidMac(s) <==> |s| == 17 && ColonEveryThird(s)
  {
    GroupsByPosition(s, 5);
  }

  // ---------------------------------------------------------------------------
  // Storage keys and the colon form

  predicate IsUpperHexDigit(c: char) {
    '0' <= c <= '9' || 'A' <= c <= 'F'
  }

  /** What a valid MAC's key looks like: upper-case hex digits only. */
  predicate IsUpperHex(k: string) {
    forall i :: 0 <= i < |k| ==> IsUpperHexDigit(k[i])
  }

  /** The colon form of a key: a colon after every pair. */
  function FormatMac(key: string): (mac: string)
    decreases |key|
  {
    if |key| <= 2 then key else key[..2] + ":" + FormatMac(key[2..])
  }

  /** On a MAC whose third character is a colon, the key is its first pair, upper-cased, then the key of the rest. */
  lemma MacKeySplit(s: string)
    requires |s| >= 3 && s[0] != ':' && s[1] != ':' && s[2] == ':'
    ensures MacKey(s) == ToUpper(s[..2]) + MacKey(s[3..])
  {
    assert s == s[..3] + s[3..];
    ToUpperAppend(s[..3], s[3..]);
    RemoveColonsAppend(ToUpper(s[..3]), ToUpper(s[3..]));
    assert ToUpper(s[..3]) == ToUpper(s[..2]) + [':'];
    RemoveColonsAppend(ToUpper(s[..2]), [':']);
    assert RemoveColons([':']) == [];
    RemoveColonsOfColonFree(ToUpper(s[..2]));
  }

  /** Putting the colons back one pair at a time. */
  lemma FormatMacCons(head: string, rest: string)
    requires |head| == 2 && rest != []
    ensures FormatMac(head + rest) == head + ":" + FormatMac(rest)
  {
    assert (head + rest)[..2] == head && (head + rest)[2..] == rest;
  }

  lemma UpperHexAppend(a: string, b: string)
    requires IsUpperHex(a) && IsUpperHex(b)
    ensures IsUpperHex(a + b)
  {
    forall i | 0 <= i < |a + b| ensures IsUpperHexDigit((a + b)[i]) {
      if i >= |a| {
        assert (a + b)[i] == b[i - |a|];
      }
    }
  }

  /** Upper-casing a string with a colon third keeps the colon between the parts. */
  lemma ToUpperAroundColon(s: string)
    requires |s| >= 3 && s[2] == ':'
    ensures ToUpper(s) == ToUpper(s[..2]) + ":" + ToUpper(s[3..])
  {
    assert s == s[..2] + [':'] + s[3..];
    ToUpperAppend(s[..2] + [':'], s[3..]);
    ToUpperAppend(s[..2], [':']);
  }

  lemma HexPairKey(s: string)
    requires IsHexPair(s)
    ensures MacKey(s) == ToUpper(s) && |ToUpper(s)| == 2 && IsUpperHex(ToUpper(s))
  {
    RemoveColonsOfColonFree(ToUpper(s));
  }

  lemma {:induction false} GroupsKey(s: string, n: nat)
    requires Groups(s, n)
    ensures |MacKey(s)| == 2 * n + 2
    ensures IsUpperHex(MacKey(s))
    ensures FormatMac(MacKey(s)) == ToUpper(s)
    decreases n
  {
    if n == 0 {
      HexPairKey(s);
    } else {
      GroupsKey(s[3..], n - 1);
      HexPairKey(s[..2]);
      MacKeySplit(s);
      UpperHexAppend(ToUpper(s[..2]), MacKey(s[3..]));
      FormatMacCons(ToUpper(s[..2]), MacKey(s[3..]));
      ToUpperAroundColon(s);
    }
  }

  /**
   * A valid MAC's key is twelve upper-case hex digits, and putting the colons
   * back gives the MAC upper-cased: the key loses nothing but letter case.
   */
  lemma ValidMacKey(s: string)
    requires ValidMac(s)
    ensures |MacKey(s)| == 12 && IsUpperHex(MacKey(s))
    ensures FormatMac(MacKey(s)) == ToUpper(s)
  {
    GroupsKey(s, 5);
  }

  /** The colon form of a key with an even number of upper-case hex digits. */
  lemma {:induction false} FormatGroups(key: string, n: nat)
    requires |key| == 2 * n + 2 && IsUpperHex(key)
    ensures Groups(FormatMac(key), n)
    ensures MacKey(FormatMac(key)) == key
    decreases n
  {
    if n == 0 {
      UpperPairKey(key);
    } else {
      var head, rest := key[..2], key[2..];
      assert key == head + rest;
      UpperPairKey(head);
      FormatGroups(rest, n - 1);
      FormatMacCons(head, rest);
      FormatGroupsStep(head, FormatMac(rest));
    }
  }

  lemma UpperPairKey(pair: string)
    requires |pair| == 2 && IsUpperHex(pair)
    ensures IsHexPair(pair) && MacKey(pair) == pair && ToUpper(pair) == pair
  {
    assert IsUpperHexDigit(pair[0]) && IsUpperHexDigit(pair[1]);
    RemoveColonsOfColonFree(pair);
    UpperHexUnchanged(pair);
  }

  lemma FormatGroupsStep(head: string, tail: string)
    requires IsHexPair(head) && ToUpper(head) == head
    ensures (head + ":" + tail)[..2] == head && (head + ":" + tail)[2] == ':' && (head + ":" + tail)[3..] == tail
    ensures MacKey(head + ":" + tail) == head + MacKey(tail)
  {
    var mac := head + ":" + tail;
    assert mac[..2] == head && mac[3..] == tail;
    MacKeySplit(mac);
  }

  lemma UpperHexUnchanged(k: string)
    requires forall i :: 0 <= i < |k| ==> IsUpperHexDigit(k[i])
    ensures ToUpper(k) == k
  {
  }

  /** Every twelve-digit upper-case hex key is the key of exactly one accepted upper-case MAC, its colon form. */
  lemma KeyFormatRoundTrip(key: string)
    requires |key| == 12 && IsUpperHex(key)
    ensures ValidMac(FormatMac(key))
    ensures MacKey(FormatMac(key)) == key
  {
    FormatGroups(key, 5);
  }

  // ---------------------------------------------------------------------------
  // One request

  /**
   * The `mac` property of the parsed body as the handler sees it: absent or
   * falsy (undefined, null, false, 0, NaN), a JSON string, or a truthy value of
   * another type, which the pattern test sees through its string conversion
   * `rendered`.
   */
  datatype MacValue = Missing | Text(s: string) | NonText(rendered: string)

  /**
   * The request body: not JSON at all, the JSON literal `null` (reading a
   * property of it throws), or any other JSON value with its `mac` property.
   */
  datatype Body = Unparseable | NullBody | Parsed(mac: MacValue)

  datatype ReplyBody = Success(message: string, mac: string) | Failure(error: string)

  datatype PostReply = PostReply(status: nat, body: ReplyBody)

  /** The MAC that gets registered: a JSON string the pattern accepts. */
  function AcceptedMac(body: Body): (r: Option<string>)
    ensures r.Some? ==> ValidMac(r.value) && body == Parsed(Text(r.value))
    ensures r.None? ==> forall s :: ValidMac(s) ==> body != Parsed(Text(s))
  {
    if body.Parsed? && body.mac.Text? && ValidMac(body.mac.s) then Some(body.mac.s) else None
  }

  /** The reply to a request: 200 with the upper-cased MAC, or 400 with the reason. */
  function Outcome(body: Body): PostReply {
    match body
    case Unparseable => PostReply(400, Failure(InvalidRequestError))
    case NullBody => PostReply(400, Failure(InvalidRequestError))
    case Parsed(Missing) => PostReply(400, Failure(InvalidFormatError))
    case Parsed(Text(s)) =>
      if s == [] || !ValidMac(s) then PostReply(400, Failure(InvalidFormatError))
      else PostReply(200, Success(SuccessMessage, ToUpper(s)))
    case Parsed(NonText(rendered)) =>
      // A non-string value that passes the test has no `toUpperCase`: the call throws.
      if !ValidMac(rendered) then PostReply(400, Failure(InvalidFormatError))
      else PostReply(400, Failure(InvalidRequestError))
  }

  /** The registry contents after a request. */
  function RegistryAfter(entries: map<string, DeviceRecord>, body: Body, now: string): map<string, DeviceRecord> {
    match AcceptedMac(body)
    case Some(mac) => entries[MacKey(mac) := DeviceRecord(ToUpper(mac), now)]
    case None => entries
  }

  /**
   * The handler. `registry` is the registry binding, `null` when none is
   * configured; `now` is the ISO-8601 text of the clock at the request. It
   * repeats the decisions of `Outcome` step by step; the properties of a
   * request are stated as lemmas about `Outcome` and `RegistryAfter`.
   */
  method OnRequestPost(body: Body, registry: MacRegistry?, now: string) returns (reply: PostReply)
    modifies registry
    ensures reply == Outcome(body)
    ensures registry != null ==> registry.entries == RegistryAfter(old(registry.entries), body, now)
  {
    if body.Unparseable? || body.NullBody? {
      return PostReply(400, Failure(InvalidRequestError));
    }
    var mac := body.mac;
    if mac.Missing? || (mac.Text? && (mac.s == [] || !ValidMac(mac.s))) || (mac.NonText? && !ValidMac(mac.rendered)) {
      return PostReply(400, Failure(InvalidFormatError));
    }
    if mac.NonText? {
      return PostReply(400, Failure(InvalidRequestError));
    }
    var normalized := MacKey(mac.s);
    if registry != null {
      registry.Put(normalized, DeviceRecord(ToUpper(mac.s), now));
    }
    return PostReply(200, Success(SuccessMessage, ToUpper(mac.s)));
  }

  // ---------------------------------------------------------------------------
  // Properties

  /**
   * A request succeeds exactly when its `mac` is a string the pattern accepts;
   * the reply then carries the MAC upper-cased, itself an accepted MAC.
   */
  lemma SuccessIffAccepted(body: Body)
    ensures Outcome(body).status == 200 <==> AcceptedMac(body).Some?
    ensures Outcome(body).status == 200 || Outcome(body).status == 400
    ensures Outcome(body).status == 200 <==> Outcome(body).body.Success?
    ensures AcceptedMac(body).Some? ==>
      Outcome(body).body.mac == ToUpper(AcceptedMac(body).value) && ValidMac(Outcome(body).body.mac)
  {
    if AcceptedMac(body).Some? {
      var s := AcceptedMac(body).value;
      ValidMacKey(s);
      KeyFormatRoundTrip(MacKey(s));
    }
  }

  /** Every failure is a 400 with one of the two error messages. */
  lemma FailureReasons(body: Body)
    requires AcceptedMac(body).None?
    ensures Outcome(body).status == 400
    ensures Outcome(body).body == Failure(InvalidFormatError) || Outcome(body).body == Failure(InvalidRequestError)
    ensures Outcome(body).body == Failure(InvalidRequestError) <==>
      body.Unparseable? || body.NullBody? || (body.mac.NonText? && ValidMac(body.mac.rendered))
  {
  }

  /**
   * A request writes at most one entry: on success the key of the MAC, holding
   * the upper-cased MAC and the time; every other entry is left as it was.
   */
  lemma RegistryChange(entries: map<string, DeviceRecord>, body: Body, now: string)
    ensures var after := RegistryAfter(entries, body, now);
      && (AcceptedMac(body).None? ==> after == entries)
      && (AcceptedMac(body).Some? ==>
            var mac := AcceptedMac(body).value;
            && MacKey(mac) in after
            && after[MacKey(mac)] == DeviceRecord(ToUpper(mac), now)
            && |MacKey(mac)| == 12
            && forall k :: k != MacKey(mac) ==> (k in after <==> k in entries) && (k in entries ==> after[k] == entries[k]))
  {
    if AcceptedMac(body).Some? {
      ValidMacKey(AcceptedMac(body).value);
    }
  }

  /** Repeating a request leaves the registry as one request did. */
  lemma RegistrationIdempotent(entries: map<string, DeviceRecord>, body: Body, now: string)
    ensures RegistryAfter(RegistryAfter(entries, body, now), body, now) == RegistryAfter(entries, body, now)
  {
  }

  /**
   * The same MAC in any other letter case is the same device: it is accepted
   * too, registering it overwrites the one entry, and the record shows the
   * same upper-cased MAC.
   */
  lemma SameDeviceAnyCase(
    entries: map<string, DeviceRecord>, mac: string, other: string, now: string, later: string)
    requires ValidMac(mac) && ToUpper(other) == ToUpper(mac)
    ensures ValidMac(other)
    ensures RegistryAfter(RegistryAfter(entries, Parsed(Text(mac)), now), Parsed(Text(other)), later)
         == RegistryAfter(entries, Parsed(Text(other)), later)
  {
    SameLettersAccepted(mac, other);
    var key := MacKey(mac);
    assert MacKey(other) == key;
    AcceptedRegistry(entries, mac, now);
    var once := RegistryAfter(entries, Parsed(Text(mac)), now);
    AcceptedRegistry(once, other, later);
    AcceptedRegistry(entries, other, later);
    Overwrite(entries, key, DeviceRecord(ToUpper(mac), now), DeviceRecord(ToUpper(other), later));
  }

  /** Storing under a key twice leaves only the second record. */
  lemma Overwrite<K, V>(m: map<K, V>, k: K, first: V, second: V)
    ensures m[k := first][k := second] == m[k := second]
  {
  }

  /** A string that upper-cases to an accepted MAC is accepted itself. */
  lemma SameLettersAccepted(mac: string, other: string)
    requires ValidMac(mac) && ToUpper(other) == ToUpper(mac)
    ensures ValidMac(other)
  {
    ValidMacByPosition(mac);
    ValidMacByPosition(other);
    forall i | 0 <= i < |other|
      ensures if i % 3 == 2 then other[i] == ':' else IsHexDigit(other[i])
    {
      assert UpperChar(other[i]) == UpperChar(mac[i]) by {
        assert ToUpper(other)[i] == ToUpper(mac)[i];
      }
    }
  }

  /** The upper-cased form of an accepted MAC is accepted, has the same key, and is its own upper case. */
  lemma UpperCaseAccepted(mac: string)
    requires ValidMac(mac)
    ensures ValidMac(ToUpper(mac))
    ensures MacKey(ToUpper(mac)) == MacKey(mac) && ToUpper(ToUpper(mac)) == ToUpper(mac)
  {
    ValidMacKey(mac);
    KeyFormatRoundTrip(MacKey(mac));
    MacKeyIgnoresCase(mac);
    ToUpperIdempotent(mac);
  }

  /** An accepted MAC stores its upper-cased form and the time under its key. */
  lemma AcceptedRegistry(entries: map<string, DeviceRecord>, mac: string, now: string)
    requires ValidMac(mac)
    ensures RegistryAfter(entries, Parsed(Text(mac)), now) == entries[MacKey(mac) := DeviceRecord(ToUpper(mac), now)]
  {
  }

  /**
   * After a successful registration, a handshake from that device is
   * authorised, whether its MAC arrives in a header or the query, in any
   * letter case, with or without colons.
   */
  lemma RegisteredDeviceAuthorized(
    entries: map<string, DeviceRecord>, mac: string, now: string,
    req: Portal.Request, fetched: Option<string>, createdMs: int, changedMs: int, e: Portal.Entropy)
    requires ValidMac(mac)
    requires Portal.ActionOf(req) == "handshake"
    requires Portal.SelectMac(req).Some? && MacKey(Portal.SelectMac(req).value) == MacKey(mac)
    ensures var js := Portal.Respond(req, Some(RegistryAfter(entries, Parsed(Text(mac)), now)), fetched, createdMs, changedMs, e).body.value;
      js.auth == "1" && js.notValid == "false"
  {
    Portal.HandshakeReply(req, Some(RegistryAfter(entries, Parsed(Text(mac)), now)), fetched, createdMs, changedMs, e);
    ValidMacKey(mac);
  }

  /** A colon form is accepted in upper case ... */
  lemma AcceptedUpperExample()
    ensures ValidMac("AA:BB:CC:DD:EE:FF")
  {
  }

  /** ... and in lower case. */
  lemma AcceptedLowerExample()
    ensures ValidMac("aa:bb:cc:dd:ee:ff")
  {
  }

  /** The bare twelve digits and non-hex letters are refused. */
  lemma RefusedExamples()
    ensures !ValidMac("AABBCCDDEEFF")
    ensures !ValidMac("GG:HH:II:JJ:KK:LL")
  {
    ValidMacByPosition("AABBCCDDEEFF");
    assert !IsHexDigit('G');
  }
}
