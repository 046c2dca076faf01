/**
 * The extended-M3U playlist parser `parseM3UPlaylist` (src/App.jsx:53-82).
 *
 * One forward pass over the lines of the text keeps a pending channel:
 * a `#EXTINF:-1 attrs,name` line replaces it, a locator line (non-empty,
 * not starting with `#`) completes it with `url`, appends it to the output
 * and resets it to `{}`, and every other line is skipped.
 *
 * A channel is a JavaScript object with string-valued properties, so it is
 * modelled as the map from its own property names to their values.
 */
module Playlist {
  import opened Wrappers
  import opened JsString
  import opened Extinf
  import opened Seqs

  type Channel = map<string, string>

  /** What `line.startsWith` tests before the regex is tried. */
  const DescriptorMarker: string := "#EXTINF"

  /** The object key whose assignment a plain JavaScript object ignores for a string value. */
  const ProtoKey: string := "__proto__"

  // ---------------------------------------------------------------------
  // Attribute tokens (src/App.jsx:63-69)
  // ---------------------------------------------------------------------

  /**
   * The property one space-separated token stores, if any:
   * `const [key, value] = attr.split('=')` keeps the first two parts, the
   * token counts only when both are non-empty, and every `"` is removed from
   * the value. Assigning a string to `attributes["__proto__"]` goes to the
   * prototype setter, which ignores it, so that key is never stored.
   */
  function Entry(token: string): Option<(string, string)> {
    var parts := Split(token, '=');
    if parts[0] != "" && |parts| >= 2 && parts[1] != "" && parts[0] != ProtoKey
    then Some((parts[0], RemoveAll(parts[1], '"')))
    else None
  }

  /** `token` stores a property under `key`. */
  predicate Stores(token: string, key: string) {
    Entry(token).Some? && Entry(token).value.0 == key
  }

  /**
   * A token written as `=`-separated parts stores exactly its first part
   * as key and its second, unquoted, as value, when both are non-empty;
   * any third and later parts are lost, and a token with no `=` stores nothing.
   */
  lemma EntryOfParts(parts: seq<string>)
    requires |parts| >= 1
    requires forall i :: 0 <= i < |parts| ==> '=' !in parts[i]
    ensures Entry(Join(parts, '=')) ==
      if |parts| >= 2 && parts[0] != "" && parts[1] != "" && parts[0] != ProtoKey
      then Some((parts[0], RemoveAll(parts[1], '"')))
      else None
  {
    SplitJoin(parts, '=');
  }

  /** The `attributes` object after the `forEach` has visited `tokens`, in order. */
  function Attributes(tokens: seq<string>): map<string, string>
    decreases |tokens|
  {
    if tokens == [] then map[]
    else
      var acc := Attributes(tokens[..|tokens| - 1]);
      match Entry(tokens[|tokens| - 1])
      case Some((key, value)) => acc[key := value]
      case None => acc
  }

  /** A key is present exactly when some token stores it. */
  lemma {:induction false} AttributeKeys(tokens: seq<string>)
    ensures forall key :: key in Attributes(tokens) <==> exists i :: 0 <= i < |tokens| && Stores(tokens[i], key)
    decreases |tokens|
  {
    if tokens != [] {
      var init := tokens[..|tokens| - 1];
      AttributeKeys(init);
      forall key | key in Attributes(tokens) ensures exists i :: 0 <= i < |tokens| && Stores(tokens[i], key) {
        if Stores(tokens[|tokens| - 1], key) {
        } else {
          assert key in Attributes(init);
          var i :| 0 <= i < |init| && Stores(init[i], key);
          assert tokens[i] == init[i];
        }
      }
      forall key, i | 0 <= i < |tokens| && Stores(tokens[i], key) ensures key in Attributes(tokens) {
        if i < |init| {
          assert init[i] == tokens[i];
        }
      }
    }
  }

  /** The value kept for a key is the one from the last token that stores it. */
  lemma {:induction false} AttributeLastWins(tokens: seq<string>, i: nat)
    requires i < |tokens| && Entry(tokens[i]).Some?
    requires forall j :: i < j < |tokens| ==> !Stores(tokens[j], Entry(tokens[i]).value.0)
    ensures Entry(tokens[i]).value.0 in Attributes(tokens)
    ensures Attributes(tokens)[Entry(tokens[i]).value.0] == Entry(tokens[i]).value.1
    decreases |tokens|
  {
    if i < |tokens| - 1 {
      var init := tokens[..|tokens| - 1];
      assert init[i] == tokens[i];
      forall j | i < j < |init| ensures !Stores(init[j], Entry(tokens[i]).value.0) {
        assert init[j] == tokens[j];
      }
      AttributeLastWins(init, i);
    }
  }

  /** The `forEach` of src/App.jsx:64-69, as a loop over the tokens. */
  method ParseAttributes(attributesText: string) returns (attributes: map<string, string>)
    ensures attributes == Attributes(Split(attributesText, ' '))
  {
    var tokens := Split(attributesText, ' ');
    attributes := map[];
    for i := 0 to |tokens|
      invariant attributes == Attributes(tokens[..i])
    {
      var attr := tokens[i];
      var parts := Split(attr, '=');
      assert tokens[..i + 1][..i] == tokens[..i];
      if parts[0] != "" && |parts| >= 2 && parts[1] != "" && parts[0] != ProtoKey {
        attributes := attributes[parts[0] := RemoveAll(parts[1], '"')];
      }
    }
    assert tokens[..|tokens|] == tokens;
  }

  /**
   * The pending channel a matching descriptor line builds:
   * `{ name: channelName, ...attributes }`, so attributes win over `name`.
   */
  function DescriptorRecord(m: Match): Channel {
    map["name" := m.name] + Attributes(Split(m.attrs, ' '))
  }

  /**
   * A descriptor record holds `name`, taken from an attribute keyed `name`
   * when there is one and from the display-name group otherwise, and every
   * other property is exactly an attribute.
   */
  lemma DescriptorFields(m: Match)
    ensures
      var attrs := Attributes(Split(m.attrs, ' '));
      var r := DescriptorRecord(m);
      "name" in r && r["name"] == (if "name" in attrs then attrs["name"] else m.name) &&
      forall key :: key != "name" ==> (key in r <==> key in attrs) && (key in attrs ==> r[key] == attrs[key])
  {
  }

  // ---------------------------------------------------------------------
  // The line loop (src/App.jsx:54-81)
  // ---------------------------------------------------------------------

  /** A line that completes the pending channel: non-empty and not starting with `#`. */
  predicate IsLocator(line: string) {
    line != "" && line[0] != '#'
  }

  /** The pending channel a line installs, if it is a descriptor line the regex accepts. */
  function DescriptorOf(line: string): Option<Channel> {
    if StartsWith(line, DescriptorMarker) then
      match MatchExtinf(line)
      case Some(m) => Some(DescriptorRecord(m))
      case None => None
    else None
  }

  /** The parser's two variables: `channels` and `currentChannel`. */
  datatype ParseState = ParseState(channels: seq<Channel>, pending: Channel)

  const Start: ParseState := ParseState([], map[])

  /** One iteration of the `for (let line of lines)` loop. */
  function Step(st: ParseState, line: string): ParseState {
    if StartsWith(line, DescriptorMarker) then
      match DescriptorOf(line)
      case Some(r) => st.(pending := r)
      case None => st
    else if IsLocator(line) then
      ParseState(st.channels + [st.pending["url" := line]], map[])
    else st
  }

  /** The pending channel to install when `line` is an accepted descriptor, `d` otherwise. */
  function OrDescriptor(line: string, d: Channel): Channel {
    match DescriptorOf(line)
    case Some(r) => r
    case None => d
  }

  /**
   * A locator line appends the pending channel completed with `url` and
   * resets the pending channel to `{}`; any other line leaves the channels
   * alone and at most replaces the pending channel with an accepted descriptor.
   */
  lemma StepSpec(st: ParseState, line: string)
    ensures IsLocator(line) ==> Step(st, line) == ParseState(st.channels + [st.pending["url" := line]], map[])
    ensures !IsLocator(line) ==> Step(st, line) == ParseState(st.channels, OrDescriptor(line, st.pending))
  {
    if StartsWith(line, DescriptorMarker) {
      assert line[0] == DescriptorMarker[0];
    }
  }

  /** The state after the loop has visited `lines`, in order, starting from `st`. */
  function Run(st: ParseState, lines: seq<string>): ParseState
    decreases |lines|
  {
    if lines == [] then st else Step(Run(st, lines[..|lines| - 1]), lines[|lines| - 1])
  }

  function ParseLines(lines: seq<string>): seq<Channel> {
    Run(Start, lines).channels
  }

  /** `parseM3UPlaylist(text)`, lines split on `'\n'` only. */
  function Parse(text: string): seq<Channel> {
    ParseLines(Split(text, '\n'))
  }

  method ParseM3UPlaylist(text: string) returns (channels: seq<Channel>)
    ensures channels == Parse(text)
  {
    var lines := Split(text, '\n');
    channels := [];
    var currentChannel: Channel := map[];
    for i := 0 to |lines|
      invariant ParseState(channels, currentChannel) == Run(Start, lines[..i])
    {
      var line := lines[i];
      assert lines[..i + 1][..i] == lines[..i];
      if StartsWith(line, DescriptorMarker) {
        var info := MatchExtinf(line);
        if info.Some? {
          var attributes := ParseAttributes(info.value.attrs);
          currentChannel := map["name" := info.value.name] + attributes;
        }
      } else if line != "" && line[0] != '#' {
        currentChannel := currentChannel["url" := line];
        channels := channels + [currentChannel];
        currentChannel := map[];
      }
    }
    assert lines[..|lines|] == lines;
  }

  // ---------------------------------------------------------------------
  // What the parser emits
  // ---------------------------------------------------------------------

  /** The locator lines of `lines`, in order. */
  function Locators(lines: seq<string>): (r: seq<string>)
    ensures |r| <= |lines|
    ensures forall i :: 0 <= i < |r| ==> IsLocator(r[i])
    decreases |lines|
  {
    if lines == [] then []
    else
      var last := lines[|lines| - 1];
      Locators(lines[..|lines| - 1]) + if IsLocator(last) then [last] else []
  }

  /** Running the loop from any state keeps the channels already emitted and adds one per locator line. */
  lemma {:induction false} RunLength(st: ParseState, lines: seq<string>)
    ensures |Run(st, lines).channels| == |st.channels| + |Locators(lines)|
    ensures Run(st, lines).channels[..|st.channels|] == st.channels
    decreases |lines|
  {
    if lines != [] {
      var init, last := lines[..|lines| - 1], lines[|lines| - 1];
      RunLength(st, init);
      var before := Run(st, init);
      StepSpec(before, last);
      assert Run(st, lines).channels[..|before.channels|] == before.channels;
      assert before.channels[..|st.channels|] == st.channels;
    }
  }

  /** The channel the `i`-th locator line adds carries that line as its `url`. */
  lemma {:induction false} RunUrlAt(st: ParseState, lines: seq<string>, i: nat)
    requires i < |Locators(lines)|
    ensures |Run(st, lines).channels| == |st.channels| + |Locators(lines)|
    ensures "url" in Run(st, lines).channels[|st.channels| + i]
    ensures Run(st, lines).channels[|st.channels| + i]["url"] == Locators(lines)[i]
    decreases |lines|
  {
    RunLength(st, lines);
    var init, last := lines[..|lines| - 1], lines[|lines| - 1];
    var before := Run(st, init);
    RunLength(st, init);
    StepSpec(before, last);
    var k := |st.channels| + i;
    if i < |Locators(init)| {
      RunUrlAt(st, init, i);
      assert Run(st, lines).channels[k] == before.channels[k] by {
        assert Run(st, lines).channels[..|before.channels|] == before.channels;
      }
      if IsLocator(last) {
        assert Locators(lines) == Locators(init) + [last];
      } else {
        assert Locators(lines) == Locators(init);
      }
    } else {
      assert IsLocator(last);
      assert Locators(lines) == Locators(init) + [last];
      assert Run(st, lines).channels[k] == before.pending["url" := last];
    }
  }

  /**
   * Every locator line emits exactly one channel, in text order, whose `url`
   * is that line unmodified (so non-empty, not starting with `#`, any `\r`
   * kept); nothing else emits.
   */
  lemma ParseEmitsLocators(lines: seq<string>)
    ensures |ParseLines(lines)| == |Locators(lines)|
    ensures forall i :: 0 <= i < |ParseLines(lines)| ==>
      "url" in ParseLines(lines)[i] && ParseLines(lines)[i]["url"] == Locators(lines)[i] && IsLocator(ParseLines(lines)[i]["url"])
  {
    RunLength(Start, lines);
    forall i | 0 <= i < |ParseLines(lines)|
      ensures "url" in ParseLines(lines)[i] && ParseLines(lines)[i]["url"] == Locators(lines)[i]
    {
      RunUrlAt(Start, lines, i);
    }
  }

  /** Running over two stretches of lines runs over the first and then the second. */
  lemma {:induction false} RunAppend(st: ParseState, a: seq<string>, b: seq<string>)
    ensures Run(st, a + b) == Run(Run(st, a), b)
    decreases |b|
  {
    if b == [] {
      assert a + b == a;
    } else {
      RunAppend(st, a, b[..|b| - 1]);
      assert (a + b)[..|a + b| - 1] == a + b[..|b| - 1];
    }
  }

  /** A line that is neither a locator nor an accepted descriptor (blank, comment, rejected `#EXTINF`) changes nothing. */
  lemma ParseSkipsInertLine(pre: seq<string>, x: string, post: seq<string>)
    requires !IsLocator(x) && DescriptorOf(x).None?
    ensures ParseLines(pre + [x] + post) == ParseLines(pre + post)
  {
    RunAppend(Start, pre + [x], post);
    RunAppend(Start, pre, [x]);
    RunAppend(Start, pre, post);
  }

  /**
   * An accepted descriptor replaces the pending channel outright: whatever
   * non-locator line came just before it, including an earlier descriptor
   * still waiting for its locator, has no effect on the output.
   */
  lemma ParseDescriptorReplaces(pre: seq<string>, x: string, d: string, post: seq<string>)
    requires !IsLocator(x) && DescriptorOf(d).Some?
    ensures ParseLines(pre + [x, d] + post) == ParseLines(pre + [d] + post)
  {
    RunAppend(Start, pre + [x, d], post);
    RunAppend(Start, pre + [d], post);
    RunAppend(Start, pre, [x, d]);
    RunAppend(Start, pre, [d]);
    RunAppend(Run(Start, pre), [x], [d]);
    assert [x] + [d] == [x, d];
  }

  /** Lines after the last locator (a trailing descriptor among them) never reach the output. */
  lemma {:induction false} ParseIgnoresTrailing(lines: seq<string>, tail: seq<string>)
    requires forall i :: 0 <= i < |tail| ==> !IsLocator(tail[i])
    ensures ParseLines(lines + tail) == ParseLines(lines)
    decreases |tail|
  {
    if tail == [] {
      assert lines + tail == lines;
    } else {
      var init, last := tail[..|tail| - 1], tail[|tail| - 1];
      ParseIgnoresTrailing(lines, init);
      assert (lines + tail)[..|lines + tail| - 1] == lines + init;
      assert last == (lines + tail)[|lines + tail| - 1];
      assert Run(Start, lines + tail) == Step(Run(Start, lines + init), last);
      assert !IsLocator(last);
      StepSpec(Run(Start, lines + init), last);
      assert Run(Start, lines + tail).channels == Run(Start, lines + init).channels;
      assert ParseLines(lines + tail) == ParseLines(lines + init);
    }
  }

  /** A text ending in a descriptor line with no locator after it parses as the text without that line. */
  lemma TrailingDescriptorDropped(text: string, last: string)
    requires '\n' !in last && !IsLocator(last)
    ensures Parse(text + "\n" + last) == Parse(text)
  {
    SplitAround(text, last, '\n');
    SplitJoin([last], '\n');
    ParseIgnoresTrailing(Split(text, '\n'), [last]);
  }

  // ---------------------------------------------------------------------
  // A segment-wise reference definition
  // ---------------------------------------------------------------------

  /** The index of the first locator line, or `|lines|` when there is none. */
  function FirstLocator(lines: seq<string>): (j: nat)
    ensures j <= |lines|
    ensures forall i :: 0 <= i < j ==> !IsLocator(lines[i])
    ensures j < |lines| ==> IsLocator(lines[j])
    decreases |lines|
  {
    if lines == [] then 0
    else if IsLocator(lines[0]) then 0
    else 1 + FirstLocator(lines[1..])
  }

  /** The record of the last accepted descriptor in `seg`, or `d` when there is none. */
  function LastDescriptor(seg: seq<string>, d: Channel): Channel {
    FoldLeft(OrDescriptor, seg, d)
  }

  /**
   * The output described segment by segment: each locator line yields the
   * last descriptor since the previous locator (or the empty record, or
   * `pending` for the first segment), completed with the locator as `url`.
   */
  function Segments(lines: seq<string>, pending: Channel): seq<Channel>
    decreases |lines|
  {
    var j := FirstLocator(lines);
    if j == |lines| then []
    else [LastDescriptor(lines[..j], pending)["url" := lines[j]]] + Segments(lines[j + 1..], map[])
  }

  lemma LastDescriptorCons(x: string, seg: seq<string>, d: Channel)
    ensures LastDescriptor([x] + seg, d) == LastDescriptor(seg, OrDescriptor(x, d))
  {
    FoldLeftCons(OrDescriptor, x, seg, d);
  }

  /**
   * A segment without an accepted descriptor leaves the pending record as it
   * was, so its locator yields `{url}` alone when the segment follows another
   * locator.
   */
  lemma {:induction false} NoDescriptorKeepsPending(seg: seq<string>, d: Channel)
    requires forall i :: 0 <= i < |seg| ==> DescriptorOf(seg[i]).None?
    ensures LastDescriptor(seg, d) == d
    decreases |seg|
  {
    if seg != [] {
      var init := seg[..|seg| - 1];
      forall i | 0 <= i < |init| ensures DescriptorOf(init[i]).None? {
        assert init[i] == seg[i];
      }
      NoDescriptorKeepsPending(init, d);
      assert DescriptorOf(seg[|seg| - 1]).None?;
    }
  }

  /** A segment that starts with a locator line is that line's channel alone. */
  lemma SegmentsLocatorHead(x: string, rest: seq<string>, pending: Channel)
    requires IsLocator(x)
    ensures Segments([x] + rest, pending) == [pending["url" := x]] + Segments(rest, map[])
  {
    var lines := [x] + rest;
    assert FirstLocator(lines) == 0;
    assert lines[..0] == [];
    assert lines[1..] == rest;
  }

  /** A line before the first locator only feeds the pending channel. */
  lemma SegmentsSkipHead(x: string, rest: seq<string>, pending: Channel)
    requires !IsLocator(x)
    ensures Segments([x] + rest, pending) == Segments(rest, OrDescriptor(x, pending))
  {
    var lines := [x] + rest;
    assert lines[1..] == rest;
    var j' := FirstLocator(rest);
    assert FirstLocator(lines) == 1 + j';
    if j' < |rest| {
      assert lines[..1 + j'] == [x] + rest[..j'];
      assert lines[1 + j' + 1..] == rest[j' + 1..];
      LastDescriptorCons(x, rest[..j'], pending);
    }
  }

  lemma {:induction false} RunIsSegments(st: ParseState, lines: seq<string>)
    ensures Run(st, lines).channels == st.channels + Segments(lines, st.pending)
    decreases |lines|
  {
    if lines != [] {
      var x, rest := lines[0], lines[1..];
      assert lines == [x] + rest;
      RunAppend(st, [x], rest);
      var next := Step(st, x);
      assert Run(st, [x]) == next by { assert [x][..0] == []; }
      StepSpec(st, x);
      RunIsSegments(next, rest);
      assert Run(st, lines).channels == next.channels + Segments(rest, next.pending);
      if IsLocator(x) {
        SegmentsLocatorHead(x, rest, st.pending);
      } else {
        SegmentsSkipHead(x, rest, st.pending);
      }
    }
  }

  /** The loop's output agrees with the segment-wise description. */
  lemma ParseIsSegmentwise(lines: seq<string>)
    ensures ParseLines(lines) == Segments(lines, map[])
  {
    RunIsSegments(Start, lines);
  }

  // ---------------------------------------------------------------------
  // Examples
  // ---------------------------------------------------------------------

  /** An empty text is one empty line and parses to no channels. */
  lemma ParseEmpty()
    ensures Parse("") == []
  {
  }

  /** A locator with no descriptor before it still yields a channel, holding only `url`. */
  lemma BareLocatorEmits(url: string)
    requires IsLocator(url) && '\n' !in url
    ensures Parse(url) == [map["url" := url]]
  {
    SplitJoin([url], '\n');
    assert [url][..0] == [];
    assert Run(Start, [url]) == Step(Start, url);
    StepSpec(Start, url);
    assert map[]["url" := url] == map["url" := url];
  }
  /**
   * A descriptor line `#EXTINF:-1 <attrs>,<name>` whose attributes hold no
   * comma and no line terminator installs the record built from exactly
   * those attributes and that name: the name is all the text after the first comma.
   */
  lemma DescriptorOfWellFormed(attrsText: string, name: string)
    requires |attrsText| >= 1 && |name| >= 1 && ',' !in attrsText
    requires NoTerminator(attrsText) && NoTerminator(name)
    ensures DescriptorOf(Prefix + attrsText + "," + name) == Some(map["name" := name] + Attributes(Split(attrsText, ' ')))
  {
    var line := Prefix + attrsText + "," + name;
    MatchWellFormed(attrsText, name);
    assert line[..|Prefix|] == Prefix;
    MarkerOnPrefixedLine(line);
    DescriptorOfMatch(line, Match(attrsText, name));
  }

  lemma MarkerOnPrefixedLine(line: string)
    requires |Prefix| <= |line| && line[..|Prefix|] == Prefix
    ensures StartsWith(line, DescriptorMarker)
  {
    assert |DescriptorMarker| <= |Prefix| && Prefix[..|DescriptorMarker|] == DescriptorMarker;
    assert line[..|DescriptorMarker|] == line[..|Prefix|][..|DescriptorMarker|];
  }

  lemma DescriptorOfMatch(line: string, m: Match)
    requires StartsWith(line, DescriptorMarker) && MatchExtinf(line) == Some(m)
    ensures DescriptorOf(line) == Some(DescriptorRecord(m))
  {
  }

  /** `k1="v1" k2="v2"` with distinct keys stores both attributes, quotes removed. */
  lemma TwoAttributes(k1: string, v1: string, k2: string, v2: string)
    requires k1 != "" && v1 != "" && k1 != ProtoKey && k2 != "" && v2 != "" && k2 != ProtoKey && k1 != k2
    requires ' ' !in k1 && '=' !in k1 && ' ' !in v1 && '=' !in v1 && '"' !in v1
    requires ' ' !in k2 && '=' !in k2 && ' ' !in v2 && '=' !in v2 && '"' !in v2
    ensures Attributes(Split((k1 + "=\"" + v1 + "\"") + " " + (k2 + "=\"" + v2 + "\""), ' ')) == map[k1 := v1, k2 := v2]
  {
    var t1 := k1 + "=\"" + v1 + "\"";
    var t2 := k2 + "=\"" + v2 + "\"";
    QuotedEntry(k1, v1);
    QuotedEntry(k2, v2);
    TwoTokens(t1, t2);
    assert Attributes([t1]) == map[k1 := v1] by { assert [t1][..0] == []; }
    assert Attributes([t1, t2]) == map[k1 := v1][k2 := v2] by { assert [t1, t2][..1] == [t1]; }
  }

  /** Attribute text made of two space-free tokens is those two tokens. */
  lemma TwoTokens(t1: string, t2: string)
    requires ' ' !in t1 && ' ' !in t2
    ensures Split(t1 + " " + t2, ' ') == [t1, t2]
  {
    assert Join([t1, t2], ' ') == t1 + " " + t2;
    SplitJoin([t1, t2], ' ');
  }

  /** The five lines of a two-channel playlist text ending in a newline. */
  lemma TwoChannelLines(d1: string, u1: string, d2: string, u2: string)
    requires '\n' !in d1 && '\n' !in u1 && '\n' !in d2 && '\n' !in u2
    ensures Split(d1 + "\n" + u1 + "\n" + d2 + "\n" + u2 + "\n", '\n') == [d1, u1, d2, u2, ""]
  {
    var x2 := d1 + "\n" + u1;
    var x3 := x2 + "\n" + d2;
    var x4 := x3 + "\n" + u2;
    SplitWhole(d1, '\n');
    SplitWhole(u1, '\n');
    SplitWhole(d2, '\n');
    SplitWhole(u2, '\n');
    SplitWhole("", '\n');
    SplitAround(d1, u1, '\n');
    SplitAround(x2, d2, '\n');
    SplitAround(x3, u2, '\n');
    SplitAround(x4, "", '\n');
    assert x4 + "\n" + "" == x4 + "\n";
  }

  /** Running over a single line is one step. */
  lemma RunOne(st: ParseState, x: string)
    ensures Run(st, [x]) == Step(st, x)
  {
    assert [x][..0] == [];
  }

  /** An accepted descriptor followed by a locator emits the descriptor's record with the locator as `url`. */
  lemma RunPair(st: ParseState, d: string, u: string, r: Channel)
    requires DescriptorOf(d) == Some(r) && IsLocator(u)
    ensures Run(st, [d, u]) == ParseState(st.channels + [r["url" := u]], map[])
  {
    assert !IsLocator(d) by { assert d[0] == DescriptorMarker[0]; }
    StepSpec(st, d);
    var mid := ParseState(st.channels, r);
    StepSpec(mid, u);
    RunOne(st, d);
    RunOne(mid, u);
    RunAppend(st, [d], [u]);
    assert [d] + [u] == [d, u];
  }

  /**
   * Descriptor, locator, descriptor, locator, blank line: two channels, each
   * its descriptor's record with its locator as `url`.
   */
  lemma TwoChannelRun(d1: string, u1: string, d2: string, u2: string, r1: Channel, r2: Channel)
    requires DescriptorOf(d1) == Some(r1) && DescriptorOf(d2) == Some(r2)
    requires IsLocator(u1) && IsLocator(u2)
    ensures ParseLines([d1, u1, d2, u2, ""]) == [r1["url" := u1], r2["url" := u2]]
  {
    RunPair(Start, d1, u1, r1);
    var s2 := ParseState([r1["url" := u1]], map[]);
    RunPair(s2, d2, u2, r2);
    var s4 := ParseState([r1["url" := u1], r2["url" := u2]], map[]);
    StepSpec(s4, "");
    RunOne(s4, "");
    assert DescriptorOf("").None?;
    assert Run(Start, [d1, u1]) == s2;
    assert Run(s2, [d2, u2]) == s4;
    assert Run(s4, [""]) == s4;
    RunAppend(Start, [d1, u1], [d2, u2]);
    RunAppend(Start, [d1, u1] + [d2, u2], [""]);
    assert [d1, u1] + [d2, u2] + [""] == [d1, u1, d2, u2, ""];
  }

  /**
   * A playlist of two well-formed descriptor/locator pairs gives two
   * channels, in text order, each its descriptor's record with its locator
   * as `url`.
   */
  lemma TwoChannels(a1: string, n1: string, u1: string, a2: string, n2: string, u2: string)
    requires |a1| >= 1 && |n1| >= 1 && ',' !in a1 && NoTerminator(a1) && NoTerminator(n1)
    requires |a2| >= 1 && |n2| >= 1 && ',' !in a2 && NoTerminator(a2) && NoTerminator(n2)
    requires IsLocator(u1) && IsLocator(u2) && '\n' !in u1 && '\n' !in u2
    ensures Parse(Prefix + a1 + "," + n1 + "\n" + u1 + "\n" + Prefix + a2 + "," + n2 + "\n" + u2 + "\n") ==
      [(map["name" := n1] + Attributes(Split(a1, ' ')))["url" := u1],
       (map["name" := n2] + Attributes(Split(a2, ' ')))["url" := u2]]
  {
    var d1 := Prefix + a1 + "," + n1;
    var d2 := Prefix + a2 + "," + n2;
    NoNewlineInDescriptor(a1, n1);
    NoNewlineInDescriptor(a2, n2);
    TwoChannelLines(d1, u1, d2, u2);
    assert d1 + "\n" + u1 + "\n" + d2 + "\n" + u2 + "\n" == Prefix + a1 + "," + n1 + "\n" + u1 + "\n" + Prefix + a2 + "," + n2 + "\n" + u2 + "\n";
    DescriptorOfWellFormed(a1, n1);
    DescriptorOfWellFormed(a2, n2);
    TwoChannelRun(d1, u1, d2, u2, map["name" := n1] + Attributes(Split(a1, ' ')), map["name" := n2] + Attributes(Split(a2, ' ')));
  }

  lemma NoNewlineInDescriptor(attrsText: string, name: string)
    requires NoTerminator(attrsText) && NoTerminator(name)
    ensures '\n' !in Prefix + attrsText + "," + name
  {
    var line := Prefix + attrsText + "," + name;
    forall i | 0 <= i < |line| ensures line[i] != '\n' {
      if i >= |Prefix| + |attrsText| + 1 {
        assert line[i] == name[i - |Prefix| - |attrsText| - 1];
      } else if |Prefix| <= i < |Prefix| + |attrsText| {
        assert line[i] == attrsText[i - |Prefix|];
      }
    }
  }

  /** `key="value"` is one space-free token storing `key` with the quotes removed from the value. */
  lemma QuotedEntry(key: string, value: string)
    requires key != "" && value != "" && key != ProtoKey
    requires ' ' !in key && '=' !in key && ' ' !in value && '=' !in value && '"' !in value
    ensures ' ' !in key + "=\"" + value + "\""
    ensures Entry(key + "=\"" + value + "\"") == Some((key, value))
  {
    var quoted := "\"" + value + "\"";
    var token := key + "=" + quoted;
    assert token == key + "=\"" + value + "\"";
    assert '=' !in quoted && ' ' !in quoted;
    assert Join([key, quoted], '=') == token;
    EntryOfParts([key, quoted]);
    Unquote(value);
  }

  /** A single `key="value"` token stores its key with the value unquoted. */
  lemma OneAttribute(key: string, value: string)
    requires key != "" && value != "" && key != ProtoKey
    requires ' ' !in key && '=' !in key && ' ' !in value && '=' !in value && '"' !in value
    ensures Attributes(Split(key + "=\"" + value + "\"", ' ')) == map[key := value]
  {
    QuotedEntry(key, value);
    SingleToken(key + "=\"" + value + "\"");
  }

  /** Removing the quotes around a quote-free value gives the value. */
  lemma Unquote(value: string)
    requires '"' !in value
    ensures RemoveAll("\"" + value + "\"", '"') == value
  {
    var quoted := "\"" + value + "\"";
    assert quoted == ['"'] + (value + ['"']);
    assert quoted[1..] == value + ['"'];
    RemoveAllAbsent(value, '"');
    RemoveAllAppend(value, ['"'], '"');
    assert RemoveAll(['"'], '"') == [];
  }

  /** Attribute text without a space is one token. */
  lemma SingleToken(token: string)
    requires ' ' !in token
    ensures Attributes(Split(token, ' ')) == match Entry(token) case Some((k, v)) => map[k := v] case None => map[]
  {
    SplitJoin([token], ' ');
    assert [token][..0] == [];
  }
}
