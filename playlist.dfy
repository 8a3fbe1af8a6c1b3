/**
 * The extended-M3U playlist parser of the portal (`parseM3U`). One pass over
 * the lines of the text: a `#EXTINF:` line opens a pending channel entry with
 * the next id, the next stream line completes it and appends it to the output,
 * and an entry that never sees a stream line is dropped without error.
 *
 * `Run` is the specification: the parser state after a sequence of lines, one
 * `Step` per line. `ParseM3U` is the loop of the source, proved to compute it.
 */
module Playlist {
  import opened Wrappers
  import opened Text

  const ExtInfMarker: string := "#EXTINF:"
  const LogoAttribute: string := "tvg-logo=\""

  /** A channel record as the portal serves it; the last six fields are fixed protocol values. */
  datatype Channel = Channel(
    id: string, name: string, number: nat, cmd: string, logo: string,
    useHttpTmpLink: int, tvGenreId: string, lock: int, fav: int, open: int, volumeCorrection: int)

  /** A trimmed line that opens a channel entry. */
  predicate IsExtInf(line: string) {
    StartsWith(line, ExtInfMarker)
  }

  /** A trimmed line that completes a pending entry: non-empty and not a `#` line. */
  predicate IsStream(line: string) {
    line != [] && !StartsWith(line, "#")
  }

  /** A metadata line is a `#` line, so it is never a stream line. */
  lemma ExtInfIsNotStream(line: string)
    ensures IsExtInf(line) ==> !IsStream(line)
  {
    if IsExtInf(line) {
      assert line[..1] == line[..|ExtInfMarker|][..1];
    }
  }

  /** A raw line that neither opens nor completes an entry: blank, or a `#` line other than `#EXTINF:`. */
  predicate IsNeutral(raw: string) {
    !IsExtInf(Trim(raw)) && !IsStream(Trim(raw))
  }

  // ---------------------------------------------------------------------------
  // The two regular expressions applied to a metadata line

  /** Whether `/,(.+)$/` matches `line` with its comma at position `p`. */
  predicate NameMatchAt(line: string, p: nat) {
    p + 1 < |line| && line[p] == ',' && forall k :: p < k < |line| ==> !IsLineTerminator(line[k])
  }

  /** The leftmost position at or after `from` where `/,(.+)$/` matches. */
  function FindNameMatch(line: string, from: nat): (r: Option<nat>)
    decreases |line| - from
    ensures r.Some? ==> from <= r.value && NameMatchAt(line, r.value)
    ensures forall q :: from <= q && (r.None? || q < r.value) ==> !NameMatchAt(line, q)
  {
    if from + 1 >= |line| then None
    else if NameMatchAt(line, from) then Some(from)
    else FindNameMatch(line, from + 1)
  }

  /**
   * The channel name: the trimmed text captured by `/,(.+)$/`, otherwise
   * `Channel <id>`. On a trimmed line it is never empty.
   */
  function ChannelName(line: string, id: nat): string {
    match FindNameMatch(line, 0)
    case Some(p) => Trim(line[p + 1..])
    case None => "Channel " + NatToString(id)
  }

  /** On a line that does not end in whitespace (every trimmed line) the name is never empty. */
  lemma ChannelNameNonEmpty(line: string, id: nat)
    requires line == [] || !IsWhitespace(line[|line| - 1])
    ensures ChannelName(line, id) != []
  {
    match FindNameMatch(line, 0)
    case Some(p) =>
      assert line[p + 1..][|line| - p - 2] == line[|line| - 1];
      TrimKeepsLast(line[p + 1..]);
    case None =>
  }

  /**
   * The name is taken after the FIRST comma whose remainder is non-empty and
   * on one line, so a comma inside an attribute value splits the name there.
   */
  lemma NameAfterFirstComma(line: string, id: nat, p: nat)
    requires NameMatchAt(line, p)
    requires forall q :: 0 <= q < p ==> line[q] != ','
    ensures ChannelName(line, id) == Trim(line[p + 1..])
  {
    var r := FindNameMatch(line, 0);
    assert r.Some? && r.value <= p;
    assert line[r.value] == ',';
  }

  /** A metadata line without a comma is named after its id. */
  lemma NameWithoutComma(line: string, id: nat)
    requires ',' !in line
    ensures ChannelName(line, id) == "Channel " + NatToString(id)
  {
    match FindNameMatch(line, 0)
    case Some(p) => assert false;
    case None =>
  }

  /** The index of the first double quote in `s`, if any. */
  function FirstQuote(s: string): (r: Option<nat>)
    ensures r.Some? ==> r.value < |s| && s[r.value] == '"' && '"' !in s[..r.value]
    ensures r.None? ==> '"' !in s
  {
    if s == [] then None
    else if s[0] == '"' then Some(0)
    else match FirstQuote(s[1..])
      case Some(i) =>
        assert s[..i + 1] == [s[0]] + s[1..][..i];
        Some(i + 1)
      case None =>
        assert s == [s[0]] + s[1..];
        None
  }

  /** What `/tvg-logo="([^"]+)"/` captures when its match starts at position `p`. */
  function LogoAt(line: string, p: nat): Option<string> {
    if p <= |line| && StartsWith(line[p..], LogoAttribute) then
      var rest := line[p + |LogoAttribute|..];
      match FirstQuote(rest)
      case Some(q) => if q > 0 then Some(rest[..q]) else None
      case None => None
    else None
  }

  /** The leftmost position at or after `from` where `/tvg-logo="([^"]+)"/` matches. */
  function FindLogoMatch(line: string, from: nat): (r: Option<nat>)
    decreases |line| - from
    ensures r.Some? ==> from <= r.value && LogoAt(line, r.value).Some?
    ensures forall q :: from <= q && (r.None? || q < r.value) ==> LogoAt(line, q).None?
  {
    if from >= |line| then None
    else if LogoAt(line, from).Some? then Some(from)
    else FindLogoMatch(line, from + 1)
  }

  /** The logo URL: the captured `tvg-logo` value of the leftmost match, otherwise `""`. */
  function ChannelLogo(line: string): string {
    match FindLogoMatch(line, 0)
    case Some(p) => LogoAt(line, p).value
    case None => []
  }

  /**
   * The logo is empty exactly when no position matches; a found value is
   * non-empty and holds no double quote.
   */
  lemma LogoFound(line: string)
    ensures ChannelLogo(line) == [] <==> forall p :: LogoAt(line, p).None?
    ensures ChannelLogo(line) != [] ==> '"' !in ChannelLogo(line)
  {
  }

  /** The pending record a metadata line opens: its `cmd` is filled in by the stream line. */
  function NewChannel(line: string, id: nat): Channel {
    Channel(NatToString(id), ChannelName(line, id), id, "", ChannelLogo(line), 1, "1", 0, 0, 1, 0)
  }

  // ---------------------------------------------------------------------------
  // The specification: one step per line

  /** The parser's variables: the output so far, the pending entry, the next id. */
  datatype ParserState = ParserState(channels: seq<Channel>, current: Option<Channel>, nextId: nat)

  const Start := ParserState([], None, 1)

  function Step(st: ParserState, raw: string): ParserState {
    var line := Trim(raw);
    if IsExtInf(line) then
      st.(current := Some(NewChannel(line, st.nextId)), nextId := st.nextId + 1)
    else if IsStream(line) && st.current.Some? then
      ParserState(st.channels + [st.current.value.(cmd := line)], None, st.nextId)
    else
      st
  }

  /** The parser state after the given lines, in order. */
  function Run(lines: seq<string>): ParserState
    decreases |lines|
  {
    if lines == [] then Start else Step(Run(lines[..|lines| - 1]), lines[|lines| - 1])
  }

  /** The records parsed from a playlist text. */
  function Parse(text: string): seq<Channel> {
    Run(SplitLines(text)).channels
  }

  // ---------------------------------------------------------------------------
  // The implementation

  /** `parseM3U`: the loop of the source over the lines of `text`. */
  method ParseM3U(text: string) returns (channels: seq<Channel>)
    ensures channels == Parse(text)
    ensures AllWellFormed(channels) && Increasing(channels)
  {
    channels := [];
    var lines := SplitLines(text);
    var current: Option<Channel> := None;
    var id: nat := 1;
    for i := 0 to |lines|
      invariant Run(lines[..i]) == ParserState(channels, current, id)
    {
      RunPrefixStep(lines, i);
      var line := Trim(lines[i]);
      if IsExtInf(line) {
        var name := ChannelName(line, id);
        var logo := ChannelLogo(line);
        current := Some(Channel(NatToString(id), name, id, "", logo, 1, "1", 0, 0, 1, 0));
        assert current == Some(NewChannel(line, id));
        id := id + 1;
      } else if IsStream(line) && current.Some? {
        channels := channels + [current.value.(cmd := line)];
        current := None;
      }
    }
    assert lines[..|lines|] == lines;
    ParseWellFormed(text);
  }

  // ---------------------------------------------------------------------------
  // Properties of the specification

  lemma AppendPair(lines: seq<string>, a: string, b: string)
    ensures lines + [a, b] == lines + [a] + [b]
  {
  }

  lemma ConcatSnoc<T>(prefix: seq<T>, rest: seq<T>)
    requires rest != []
    ensures prefix + rest == (prefix + rest[..|rest| - 1]) + [rest[|rest| - 1]]
  {
  }

  lemma RunPrefixStep(lines: seq<string>, i: nat)
    requires i < |lines|
    ensures Run(lines[..i + 1]) == Step(Run(lines[..i]), lines[i])
  {
    assert lines[..i + 1][..i] == lines[..i];
  }

  lemma RunAppend(lines: seq<string>, raw: string)
    ensures Run(lines + [raw]) == Step(Run(lines), raw)
  {
    assert (lines + [raw])[..|lines|] == lines;
  }

  /** What every emitted record satisfies. */
  predicate WellFormed(c: Channel) {
    && c.number >= 1
    && c.id == NatToString(c.number)
    && c.name != []
    && IsStream(c.cmd)
    && Trim(c.cmd) == c.cmd
  }

  predicate AllWellFormed(channels: seq<Channel>) {
    forall k :: 0 <= k < |channels| ==> WellFormed(channels[k])
  }

  /** Every id in `channels` is below `bound`. */
  predicate NumbersBelow(channels: seq<Channel>, bound: nat) {
    forall k :: 0 <= k < |channels| ==> channels[k].number < bound
  }

  predicate Increasing(channels: seq<Channel>) {
    forall j, k :: 0 <= j < k < |channels| ==> channels[j].number < channels[k].number
  }

  /** The invariant of the parser's variables. */
  predicate Valid(st: ParserState) {
    && st.nextId >= 1
    && AllWellFormed(st.channels)
    && NumbersBelow(st.channels, st.nextId)
    && Increasing(st.channels)
    && (st.current.Some? ==>
          var c := st.current.value;
          && c.number >= 1
          && c.number + 1 == st.nextId
          && c.id == NatToString(c.number)
          && c.name != []
          && NumbersBelow(st.channels, c.number))
  }

  lemma OpenValid(st: ParserState, line: string)
    requires Valid(st) && IsExtInf(line) && !IsWhitespace(line[|line| - 1])
    ensures Valid(st.(current := Some(NewChannel(line, st.nextId)), nextId := st.nextId + 1))
  {
    ChannelNameNonEmpty(line, st.nextId);
  }

  lemma AllWellFormedAppend(channels: seq<Channel>, c: Channel)
    requires AllWellFormed(channels) && WellFormed(c)
    ensures AllWellFormed(channels + [c])
  {
    forall k | 0 <= k < |channels| + 1
      ensures WellFormed((channels + [c])[k])
    {
      if k < |channels| {
        assert (channels + [c])[k] == channels[k];
      }
    }
  }

  lemma NumbersBelowAppend(channels: seq<Channel>, c: Channel, bound: nat)
    requires NumbersBelow(channels, bound) && c.number < bound
    ensures NumbersBelow(channels + [c], bound)
  {
    forall k | 0 <= k < |channels| + 1
      ensures (channels + [c])[k].number < bound
    {
      if k < |channels| {
        assert (channels + [c])[k] == channels[k];
      }
    }
  }

  lemma IncreasingAppend(channels: seq<Channel>, c: Channel)
    requires Increasing(channels) && NumbersBelow(channels, c.number)
    ensures Increasing(channels + [c])
  {
    var all := channels + [c];
    forall j, k | 0 <= j < k < |all|
      ensures all[j].number < all[k].number
    {
      assert all[j] == channels[j];
      if k < |channels| {
        assert all[k] == channels[k];
      }
    }
  }

  lemma CompleteValid(st: ParserState, line: string)
    requires Valid(st) && st.current.Some? && IsStream(line) && Trim(line) == line
    ensures Valid(ParserState(st.channels + [st.current.value.(cmd := line)], None, st.nextId))
  {
    var c := st.current.value.(cmd := line);
    AllWellFormedAppend(st.channels, c);
    NumbersBelowAppend(st.channels, c, st.nextId);
    IncreasingAppend(st.channels, c);
  }

  lemma StepValid(st: ParserState, raw: string)
    requires Valid(st)
    ensures Valid(Step(st, raw))
  {
    var line := Trim(raw);
    if IsExtInf(line) {
      OpenValid(st, line);
    } else if IsStream(line) && st.current.Some? {
      TrimIdempotent(raw);
      CompleteValid(st, line);
    }
  }

  lemma {:induction false} RunValid(lines: seq<string>)
    ensures Valid(Run(lines))
  {
    if lines != [] {
      RunValid(lines[..|lines| - 1]);
      StepValid(Run(lines[..|lines| - 1]), lines[|lines| - 1]);
    }
  }

  /** The decimal text of every well-formed record's id reads back as its number. */
  lemma IdsDecode(channels: seq<Channel>)
    requires AllWellFormed(channels)
    ensures forall k :: 0 <= k < |channels| ==> DecimalValue(channels[k].id) == channels[k].number
  {
    forall k | 0 <= k < |channels|
      ensures DecimalValue(channels[k].id) == channels[k].number
    {
      assert WellFormed(channels[k]);
      DecimalValueOfNatToString(channels[k].number);
    }
  }

  /**
   * Every record of any text has an id of at least 1 whose decimal text is its
   * `id` and whose value is its `number`, a non-empty name, and a `cmd` that is a
   * trimmed non-empty line not starting with `#`; ids strictly increase.
   */
  lemma ParseWellFormed(text: string)
    ensures AllWellFormed(Parse(text))
    ensures forall k :: 0 <= k < |Parse(text)| ==> DecimalValue(Parse(text)[k].id) == Parse(text)[k].number
    ensures Increasing(Parse(text))
  {
    RunValid(SplitLines(text));
    IdsDecode(Parse(text));
  }

  function CountExtInf(lines: seq<string>): nat {
    if lines == [] then 0
    else CountExtInf(lines[..|lines| - 1]) + (if IsExtInf(Trim(lines[|lines| - 1])) then 1 else 0)
  }

  function CountStream(lines: seq<string>): nat {
    if lines == [] then 0
    else CountStream(lines[..|lines| - 1]) + (if IsStream(Trim(lines[|lines| - 1])) then 1 else 0)
  }

  /**
   * Each metadata line takes one id, so the next id is one past their count;
   * the output plus the pending entry never outnumber the metadata lines, and
   * the output never outnumbers the stream lines.
   */
  lemma {:induction false} RunCounts(lines: seq<string>)
    ensures Run(lines).nextId == 1 + CountExtInf(lines)
    ensures |Run(lines).channels| + (if Run(lines).current.Some? then 1 else 0) <= CountExtInf(lines)
    ensures |Run(lines).channels| <= CountStream(lines)
  {
    if lines != [] {
      RunCounts(lines[..|lines| - 1]);
    }
  }

  // ---------------------------------------------------------------------------
  // Where each record comes from

  /** Lines that are all blank or comment lines. */
  predicate AllNeutral(lines: seq<string>) {
    forall i {:trigger IsNeutral(lines[i])} :: 0 <= i < |lines| ==> IsNeutral(lines[i])
  }

  lemma AllNeutralSnoc(lines: seq<string>, raw: string)
    ensures AllNeutral(lines + [raw]) <==> AllNeutral(lines) && IsNeutral(raw)
  {
    var all := lines + [raw];
    if AllNeutral(all) {
      assert IsNeutral(all[|lines|]);
      forall i | 0 <= i < |lines| ensures IsNeutral(lines[i]) {
        assert all[i] == lines[i] && IsNeutral(all[i]);
      }
    }
    if AllNeutral(lines) && IsNeutral(raw) {
      forall i | 0 <= i < |all| ensures IsNeutral(all[i]) {
        if i < |lines| {
          assert all[i] == lines[i] && IsNeutral(lines[i]);
        }
      }
    }
  }

  /** Line `e` opened an entry that is still pending after all of `lines`. */
  predicate Pending(lines: seq<string>, e: nat) {
    e < |lines| && IsExtInf(Trim(lines[e])) && AllNeutral(lines[e + 1..])
  }

  /**
   * Line `j` completes the entry opened by line `e`: a metadata line, then
   * only blank or comment lines, then the stream line `j`.
   */
  predicate Completes(lines: seq<string>, e: nat, j: nat) {
    j < |lines| && Pending(lines[..j], e) && IsStream(Trim(lines[j]))
  }

  /** The metadata line `e`, trimmed, and the id it takes: one more than the metadata lines before it. */
  function OpenerAt(lines: seq<string>, e: nat): (string, nat)
    requires e < |lines|
  {
    (Trim(lines[e]), 1 + CountExtInf(lines[..e]))
  }

  /** The record a metadata line `e` and a stream line `j` give. */
  function Record(lines: seq<string>, e: nat, j: nat): Channel
    requires e < j < |lines|
  {
    var (line, id) := OpenerAt(lines, e);
    NewChannel(line, id).(cmd := Trim(lines[j]))
  }

  /** The line of the pending entry, if any. */
  function PendingIndex(lines: seq<string>): (r: Option<nat>)
    decreases |lines|
    ensures r.Some? ==> r.value < |lines|
  {
    if lines == [] then None
    else if IsExtInf(Trim(lines[|lines| - 1])) then Some(|lines| - 1)
    else if IsStream(Trim(lines[|lines| - 1])) then None
    else PendingIndex(lines[..|lines| - 1])
  }

  /** How one more line decides whether an entry is still pending. */
  lemma PendingSnoc(lines: seq<string>, raw: string, e: nat)
    ensures e < |lines| ==> (Pending(lines + [raw], e) <==> Pending(lines, e) && IsNeutral(raw))
    ensures e == |lines| ==> (Pending(lines + [raw], e) <==> IsExtInf(Trim(raw)))
  {
    var all := lines + [raw];
    if e < |lines| {
      assert all[e + 1..] == lines[e + 1..] + [raw];
      assert all[e] == lines[e];
      AllNeutralSnoc(lines[e + 1..], raw);
    } else if e == |lines| {
      assert all[e + 1..] == [];
    }
  }

  lemma PendingIndexAppend(lines: seq<string>, raw: string)
    ensures PendingIndex(lines + [raw]) ==
      if IsExtInf(Trim(raw)) then Some(|lines|)
      else if IsStream(Trim(raw)) then None
      else PendingIndex(lines)
  {
    var all := lines + [raw];
    assert all[..|all| - 1] == lines && all[|all| - 1] == raw;
  }

  /** `PendingIndex` finds exactly the pending entry. */
  ghost predicate PendingIndexExact(lines: seq<string>) {
    && (PendingIndex(lines).Some? ==> Pending(lines, PendingIndex(lines).value))
    && (forall e: nat :: Pending(lines, e) ==> PendingIndex(lines) == Some(e))
  }

  lemma PendingIndexExactAppend(lines: seq<string>, raw: string)
    requires PendingIndexExact(lines)
    ensures PendingIndexExact(lines + [raw])
  {
    PendingIndexAppend(lines, raw);
    ExtInfIsNotStream(Trim(raw));
    forall e: nat | e <= |lines| {
      PendingSnoc(lines, raw, e);
    }
  }

  lemma {:induction false} PendingIndexSpec(lines: seq<string>)
    ensures PendingIndexExact(lines)
    decreases |lines|
  {
    if lines != [] {
      var init, raw := lines[..|lines| - 1], lines[|lines| - 1];
      assert lines == init + [raw];
      PendingIndexSpec(init);
      PendingIndexExactAppend(init, raw);
    }
  }

  /** The metadata line and id of the pending entry, if there is one. */
  function PendingOpener(lines: seq<string>): Option<(string, nat)> {
    match PendingIndex(lines)
    case Some(e) => Some(OpenerAt(lines, e))
    case None => None
  }

  /** The parser's pending entry is the record opened by the pending metadata line. */
  predicate CurrentIsPending(lines: seq<string>) {
    match PendingOpener(lines)
    case Some((line, id)) => Run(lines).current == Some(NewChannel(line, id))
    case None => Run(lines).current.None?
  }

  /** A later line does not change what an earlier metadata line opened. */
  lemma OpenerAtPrefix(lines: seq<string>, raw: string, e: nat)
    requires e < |lines|
    ensures OpenerAt(lines + [raw], e) == OpenerAt(lines, e)
  {
    assert (lines + [raw])[..e] == lines[..e] && (lines + [raw])[e] == lines[e];
  }

  lemma PendingOpenerAppend(lines: seq<string>, raw: string)
    ensures PendingOpener(lines + [raw]) ==
      if IsExtInf(Trim(raw)) then Some((Trim(raw), 1 + CountExtInf(lines)))
      else if IsStream(Trim(raw)) then None
      else PendingOpener(lines)
  {
    PendingIndexAppend(lines, raw);
    if IsExtInf(Trim(raw)) {
      OpenerAtLast(lines, raw);
    } else if !IsStream(Trim(raw)) {
      PendingOpenerKept(lines, raw);
    }
  }

  lemma OpenerAtLast(lines: seq<string>, raw: string)
    ensures OpenerAt(lines + [raw], |lines|).0 == Trim(raw)
    ensures OpenerAt(lines + [raw], |lines|).1 == 1 + CountExtInf(lines)
  {
    assert (lines + [raw])[..|lines|] == lines;
  }

  lemma PendingOpenerKept(lines: seq<string>, raw: string)
    requires PendingIndex(lines + [raw]) == PendingIndex(lines)
    ensures PendingOpener(lines + [raw]) == PendingOpener(lines)
  {
    if PendingIndex(lines).Some? {
      OpenerAtPrefix(lines, raw, PendingIndex(lines).value);
    }
  }

  lemma CurrentAppend(lines: seq<string>, raw: string)
    requires CurrentIsPending(lines)
    ensures CurrentIsPending(lines + [raw])
  {
    RunAppend(lines, raw);
    PendingOpenerAppend(lines, raw);
    RunCounts(lines);
    ExtInfIsNotStream(Trim(raw));
  }

  /** The pending entry of the parser is the record its metadata line opened. */
  lemma {:induction false} RunCurrent(lines: seq<string>)
    ensures CurrentIsPending(lines)
    decreases |lines|
  {
    if lines != [] {
      var init, raw := lines[..|lines| - 1], lines[|lines| - 1];
      assert lines == init + [raw];
      RunCurrent(init);
      CurrentAppend(init, raw);
    }
  }

  lemma CompletesInPrefix(lines: seq<string>, raw: string, e: nat, j: nat)
    requires j < |lines|
    ensures Completes(lines + [raw], e, j) <==> Completes(lines, e, j)
    ensures e < j ==> Record(lines + [raw], e, j) == Record(lines, e, j)
  {
    var all := lines + [raw];
    assert all[..j] == lines[..j] && all[j] == lines[j];
    if e < j {
      OpenerAtPrefix(lines, raw, e);
    }
  }

  /** The record the last line adds, if it completes a pending entry. */
  lemma CompletedByLast(lines: seq<string>, raw: string)
    requires IsStream(Trim(raw)) && PendingIndex(lines).Some?
    ensures var e := PendingIndex(lines).value;
      && Completes(lines + [raw], e, |lines|)
      && Run(lines + [raw]).channels == Run(lines).channels + [Record(lines + [raw], e, |lines|)]
  {
    var e := PendingIndex(lines).value;
    PendingIndexSpec(lines);
    RunCurrent(lines);
    RunAppend(lines, raw);
    ExtInfIsNotStream(Trim(raw));
    OpenerAtPrefix(lines, raw, e);
    assert (lines + [raw])[..|lines|] == lines && (lines + [raw])[|lines|] == raw;
  }

  /** Otherwise the last line adds no record. */
  lemma NoneCompletedByLast(lines: seq<string>, raw: string)
    requires !IsStream(Trim(raw)) || PendingIndex(lines).None?
    ensures Run(lines + [raw]).channels == Run(lines).channels
    ensures forall e: nat :: !Completes(lines + [raw], e, |lines|)
  {
    RunCurrent(lines);
    RunAppend(lines, raw);
    PendingIndexSpec(lines);
    assert (lines + [raw])[..|lines|] == lines;
  }

  /** `c` is the record of some metadata line `e` and the stream line `j` completing it. */
  ghost predicate Sourced(lines: seq<string>, c: Channel) {
    exists e: nat, j: nat :: Completes(lines, e, j) && c == Record(lines, e, j)
  }

  /** Every record of the parser comes from a metadata line and the stream line completing it. */
  ghost predicate Sound(lines: seq<string>) {
    forall k :: 0 <= k < |Run(lines).channels| ==> Sourced(lines, Run(lines).channels[k])
  }

  /** Every metadata line completed by a stream line gives its record. */
  ghost predicate Complete(lines: seq<string>) {
    forall e: nat, j: nat :: Completes(lines, e, j) ==> Record(lines, e, j) in Run(lines).channels
  }

  /** A record kept from before one more line still has its source lines. */
  lemma KeptRecordSound(lines: seq<string>, raw: string, k: nat)
    requires Sound(lines) && k < |Run(lines).channels|
    requires k < |Run(lines + [raw]).channels| && Run(lines + [raw]).channels[k] == Run(lines).channels[k]
    ensures Sourced(lines + [raw], Run(lines + [raw]).channels[k])
  {
    assert Sourced(lines, Run(lines).channels[k]);
    var e, j :| Completes(lines, e, j) && Run(lines).channels[k] == Record(lines, e, j);
    CompletesInPrefix(lines, raw, e, j);
  }

  lemma SoundAppend(lines: seq<string>, raw: string)
    requires Sound(lines)
    ensures Sound(lines + [raw])
  {
    if IsStream(Trim(raw)) && PendingIndex(lines).Some? {
      SoundAfterCompletion(lines, raw);
    } else {
      NoneCompletedByLast(lines, raw);
      SoundKept(lines, raw);
    }
  }

  /** A line that adds no record keeps every record sourced. */
  lemma SoundKept(lines: seq<string>, raw: string)
    requires Sound(lines) && Run(lines + [raw]).channels == Run(lines).channels
    ensures Sound(lines + [raw])
  {
    forall k | 0 <= k < |Run(lines + [raw]).channels|
      ensures Sourced(lines + [raw], Run(lines + [raw]).channels[k])
    {
      KeptRecordSound(lines, raw, k);
    }
  }

  /** A line that completes the pending entry adds a record sourced by that entry and itself. */
  lemma SoundAfterCompletion(lines: seq<string>, raw: string)
    requires Sound(lines) && IsStream(Trim(raw)) && PendingIndex(lines).Some?
    ensures Sound(lines + [raw])
  {
    LastRecordSourced(lines, raw);
    forall k | 0 <= k < |Run(lines + [raw]).channels|
      ensures Sourced(lines + [raw], Run(lines + [raw]).channels[k])
    {
      if k < |Run(lines).channels| {
        KeptRecordSound(lines, raw, k);
      } else {
        assert k == |Run(lines).channels|;
      }
    }
  }

  /** The record the last line adds comes from the pending metadata line and that last line. */
  lemma LastRecordSourced(lines: seq<string>, raw: string)
    requires IsStream(Trim(raw)) && PendingIndex(lines).Some?
    ensures Run(lines).channels <= Run(lines + [raw]).channels
    ensures |Run(lines + [raw]).channels| == |Run(lines).channels| + 1
    ensures Sourced(lines + [raw], Run(lines + [raw]).channels[|Run(lines).channels|])
  {
    CompletedByLast(lines, raw);
    var e := PendingIndex(lines).value;
    assert Completes(lines + [raw], e, |lines|);
  }

  /** A record owed before one more line is still there after it. */
  lemma KeptRecordComplete(lines: seq<string>, raw: string, e: nat, j: nat)
    requires Complete(lines) && j < |lines| && Completes(lines + [raw], e, j)
    requires Run(lines).channels <= Run(lines + [raw]).channels
    ensures Record(lines + [raw], e, j) in Run(lines + [raw]).channels
  {
    CompletesInPrefix(lines, raw, e, j);
    assert Record(lines, e, j) in Run(lines).channels;
  }

  /** The record the last line completes is the one of the pending metadata line. */
  lemma LastRecordComplete(lines: seq<string>, raw: string, e: nat)
    requires Completes(lines + [raw], e, |lines|)
    ensures PendingIndex(lines) == Some(e)
  {
    PendingIndexSpec(lines);
    assert (lines + [raw])[..|lines|] == lines;
  }

  /** A record owed after one more line: kept from before, or added by that line. */
  lemma CompletedRecordKept(lines: seq<string>, raw: string, e: nat, j: nat)
    requires Complete(lines) && Completes(lines + [raw], e, j)
    ensures Record(lines + [raw], e, j) in Run(lines + [raw]).channels
  {
    var all := lines + [raw];
    if IsStream(Trim(raw)) && PendingIndex(lines).Some? {
      CompletedByLast(lines, raw);
      assert Run(lines).channels <= Run(all).channels;
      if j < |lines| {
        KeptRecordComplete(lines, raw, e, j);
      } else {
        LastRecordComplete(lines, raw, e);
        assert Record(all, e, j) == Run(all).channels[|Run(lines).channels|];
      }
    } else {
      NoneCompletedByLast(lines, raw);
      assert Run(lines).channels <= Run(all).channels;
      KeptRecordComplete(lines, raw, e, j);
    }
  }

  lemma CompleteAppend(lines: seq<string>, raw: string)
    requires Complete(lines)
    ensures Complete(lines + [raw])
  {
    forall e: nat, j: nat | Completes(lines + [raw], e, j)
      ensures Record(lines + [raw], e, j) in Run(lines + [raw]).channels
    {
      CompletedRecordKept(lines, raw, e, j);
    }
  }

  /**
   * Every record comes from a metadata line and the stream line completing
   * it: its `cmd` is that stream line trimmed, its name and logo come from the
   * metadata line, and its id counts the metadata lines up to that one.
   */
  lemma {:induction false} RunSound(lines: seq<string>)
    ensures Sound(lines)
    decreases |lines|
  {
    if lines != [] {
      var init, raw := lines[..|lines| - 1], lines[|lines| - 1];
      assert lines == init + [raw];
      RunSound(init);
      SoundAppend(init, raw);
    }
  }

  /** No record is lost: every metadata line completed by a stream line gives its record. */
  lemma {:induction false} RunComplete(lines: seq<string>)
    ensures Complete(lines)
    decreases |lines|
  {
    if lines != [] {
      var init, raw := lines[..|lines| - 1], lines[|lines| - 1];
      assert lines == init + [raw];
      RunComplete(init);
      CompleteAppend(init, raw);
    }
  }

  /** Blank lines and `#` lines other than `#EXTINF:` never change the parser's state. */
  lemma NeutralLineIgnored(st: ParserState, raw: string)
    requires IsNeutral(raw)
    ensures Step(st, raw) == st
  {
  }

  lemma {:induction false} NeutralLinesIgnored(prefix: seq<string>, rest: seq<string>)
    requires forall i {:trigger IsNeutral(rest[i])} :: 0 <= i < |rest| ==> IsNeutral(rest[i])
    ensures Run(prefix + rest) == Run(prefix)
    decreases |rest|
  {
    if rest == [] {
      assert prefix + rest == prefix;
    } else {
      var init := rest[..|rest| - 1];
      assert prefix + rest == (prefix + init) + [rest[|rest| - 1]];
      RunAppend(prefix + init, rest[|rest| - 1]);
      assert IsNeutral(rest[|rest| - 1]);
      forall i | 0 <= i < |init| ensures IsNeutral(init[i]) {
        assert IsNeutral(rest[i]);
      }
      NeutralLinesIgnored(prefix, init);
    }
  }

  /** A line that is not a stream line adds no record. */
  lemma NoStreamAppend(lines: seq<string>, raw: string)
    requires !IsStream(Trim(raw))
    ensures Run(lines + [raw]).channels == Run(lines).channels
  {
    RunAppend(lines, raw);
  }

  /**
   * Lines without a stream line add no record: in particular an entry still
   * pending at the end of the text is dropped, and no error is raised.
   */
  lemma {:induction false} NoStreamNoRecord(prefix: seq<string>, rest: seq<string>)
    requires NoStreamLines(rest)
    ensures Run(prefix + rest).channels == Run(prefix).channels
    decreases |rest|
  {
    if rest == [] {
      assert prefix + rest == prefix;
    } else {
      var init, last := rest[..|rest| - 1], rest[|rest| - 1];
      ConcatSnoc(prefix, rest);
      NoStreamInit(rest);
      NoStreamNoRecord(prefix, init);
      NoStreamAppend(prefix + init, last);
    }
  }

  /** Lines none of which is a stream line. */
  predicate NoStreamLines(lines: seq<string>) {
    forall i :: 0 <= i < |lines| ==> !IsStream(Trim(lines[i]))
  }

  lemma NoStreamInit(lines: seq<string>)
    requires lines != [] && NoStreamLines(lines)
    ensures NoStreamLines(lines[..|lines| - 1]) && !IsStream(Trim(lines[|lines| - 1]))
  {
    var init := lines[..|lines| - 1];
    forall i | 0 <= i < |init| ensures !IsStream(Trim(init[i])) {
      assert init[i] == lines[i];
    }
  }

  /**
   * A metadata line followed, after only blank or comment lines, by another
   * metadata line is discarded: the second entry is pending instead, with the
   * id after the discarded one, and the output is unchanged.
   */
  lemma SupersededPending(prefix: seq<string>, first: string, between: seq<string>, second: string)
    requires IsExtInf(Trim(first)) && IsExtInf(Trim(second))
    requires forall i {:trigger IsNeutral(between[i])} :: 0 <= i < |between| ==> IsNeutral(between[i])
    ensures Run(prefix + [first] + between + [second])
         == Run(prefix).(current := Some(NewChannel(Trim(second), Run(prefix).nextId + 1)),
                         nextId := Run(prefix).nextId + 2)
  {
    var p2 := prefix + [first] + between;
    assert Run(p2) == Step(Run(prefix), first) by {
      RunAppend(prefix, first);
      NeutralLinesIgnored(prefix + [first], between);
    }
    RunAppend(p2, second);
  }

  /** So the next stream line completes only the second entry, whose id skips the discarded one. */
  lemma Superseded(prefix: seq<string>, first: string, between: seq<string>, second: string, url: string)
    requires IsExtInf(Trim(first)) && IsExtInf(Trim(second)) && IsStream(Trim(url))
    requires forall i {:trigger IsNeutral(between[i])} :: 0 <= i < |between| ==> IsNeutral(between[i])
    ensures Run(prefix + [first] + between + [second, url]).channels
         == Run(prefix).channels + [NewChannel(Trim(second), Run(prefix).nextId + 1).(cmd := Trim(url))]
  {
    var p2 := prefix + [first] + between;
    AppendPair(p2, second, url);
    SupersededPending(prefix, first, between, second);
    CompletesPending(p2 + [second], url);
  }

  /** A stream line after a pending entry emits that entry with the stream line as its `cmd`. */
  lemma CompletesPending(lines: seq<string>, url: string)
    requires IsStream(Trim(url)) && Run(lines).current.Some?
    ensures Run(lines + [url]).channels == Run(lines).channels + [Run(lines).current.value.(cmd := Trim(url))]
  {
    ExtInfIsNotStream(Trim(url));
    RunAppend(lines, url);
  }

  /** The lines of well-formed entries, each a metadata line directly followed by its stream line. */
  function PairedLines(entries: seq<(string, string)>): seq<string> {
    if entries == [] then []
    else PairedLines(entries[..|entries| - 1]) + [entries[|entries| - 1].0, entries[|entries| - 1].1]
  }

  predicate WellFormedEntries(entries: seq<(string, string)>) {
    forall i :: 0 <= i < |entries| ==> IsExtInf(Trim(entries[i].0)) && IsStream(Trim(entries[i].1))
  }

  /** N well-formed entries in sequence give exactly N records, with ids 1 to N, in order. */
  lemma {:induction false} PairedEntries(entries: seq<(string, string)>)
    requires WellFormedEntries(entries)
    ensures Run(PairedLines(entries)).current.None?
    ensures Run(PairedLines(entries)).nextId == |entries| + 1
    ensures |Run(PairedLines(entries)).channels| == |entries|
    ensures forall k :: 0 <= k < |entries| ==>
              Run(PairedLines(entries)).channels[k] == NewChannel(Trim(entries[k].0), k + 1).(cmd := Trim(entries[k].1))
  {
    if entries != [] {
      var init := entries[..|entries| - 1];
      var (meta, url) := entries[|entries| - 1];
      PairedEntries(init);
      var before := Run(PairedLines(init));
      RunAppend(PairedLines(init), meta);
      ExtInfIsNotStream(Trim(url));
      RunAppend(PairedLines(init) + [meta], url);
      AppendPair(PairedLines(init), meta, url);
      var after := Run(PairedLines(entries));
      assert after.channels == before.channels + [NewChannel(Trim(meta), |init| + 1).(cmd := Trim(url))];
      forall k | 0 <= k < |entries|
        ensures after.channels[k] == NewChannel(Trim(entries[k].0), k + 1).(cmd := Trim(entries[k].1))
      {
        if k < |init| {
          assert entries[k] == init[k];
          assert after.channels[k] == before.channels[k];
        } else {
          assert k == |init| && entries[k] == (meta, url);
          assert after.channels[k] == NewChannel(Trim(meta), |init| + 1).(cmd := Trim(url));
        }
      }
    }
  }

  /** The same for the playlist text that joins those lines with newlines. */
  lemma ParsePairedText(entries: seq<(string, string)>)
    requires entries != [] && WellFormedEntries(entries)
    requires forall i :: 0 <= i < |entries| ==> '\n' !in entries[i].0 && '\n' !in entries[i].1
    ensures |Parse(JoinLines(PairedLines(entries)))| == |entries|
    ensures forall k :: 0 <= k < |entries| ==>
              Parse(JoinLines(PairedLines(entries)))[k] == NewChannel(Trim(entries[k].0), k + 1).(cmd := Trim(entries[k].1))
  {
    PairedLinesNewlineFree(entries);
    SplitJoin(PairedLines(entries));
    PairedEntries(entries);
  }

  /** The empty text, like any text without a stream line, gives no record. */
  lemma ParseEmpty()
    ensures Parse("") == []
  {
    assert SplitLines("") == [""];
    NoStreamNoRecord([], [""]);
    assert [] + [""] == [""];
  }

  lemma {:induction false} PairedLinesNewlineFree(entries: seq<(string, string)>)
    requires forall i :: 0 <= i < |entries| ==> '\n' !in entries[i].0 && '\n' !in entries[i].1
    ensures |PairedLines(entries)| == 2 * |entries|
    ensures forall i :: 0 <= i < |PairedLines(entries)| ==> '\n' !in PairedLines(entries)[i]
  {
    if entries != [] {
      PairedLinesNewlineFree(entries[..|entries| - 1]);
    }
  }
}
