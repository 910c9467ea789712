/** Server settings spelled out in a file name, separated by commas: a final comma keeps what browsers
    and file managers append apart from the last setting. */
module CommaName {
  import opened Base64Url
  import opened ServerJson
  import opened ServerName
  import opened NameRoundTrip

  function Join(tokens: seq<string>): string
    requires tokens != []
  {
    if |tokens| == 1 then tokens[0] else tokens[0] + ("," + Join(tokens[1..]))
  }

  lemma NoComma(a: string, b: string)
    requires Without(a, ',')
    ensures NotBefore(",", a + b, |a|)
  {
    forall i: nat | i < |a| ensures !OccursAt(",", a + b, i) {
      if OccursAt(",", a + b, i) {
        OccursChar(",", a + b, i, 0);
      }
    }
  }

  /** Splitting what was joined gives the tokens, if none of them holds a comma. */
  lemma {:induction false} SplitJoin(tokens: seq<string>)
    requires tokens != [] && forall i | 0 <= i < |tokens| :: Without(tokens[i], ',')
    ensures Split(Join(tokens), ",") == tokens
    decreases |tokens|
  {
    var first := tokens[0];
    if |tokens| == 1 {
      NoComma(first, []);
      SplitAfter(first, [], ",");
      assert first + [] == first;
    } else {
      var more := Join(tokens[1..]);
      SplitJoin(tokens[1..]);
      NoComma(first, "," + more);
      SplitAfter(first, "," + more, ",");
      assert ("," + more)[..1] == "," && ("," + more)[1..] == more;
      assert first + [] == first;
    }
  }

  /** The last token with a prefix is the one that counts. */
  lemma {:induction false} LastWithAt(tokens: seq<string>, prefix: string, i: nat)
    requires i < |tokens| && StartsWith(Lower(tokens[i]), prefix)
    requires forall k | i < k < |tokens| :: !StartsWith(Lower(tokens[k]), prefix)
    ensures LastWith(tokens, prefix) == tokens[i][|prefix|..]
    decreases |tokens|
  {
    if i < |tokens| - 1 {
      LastWithAt(tokens[..|tokens| - 1], prefix, i);
    }
  }

  function SettingTokens(server: CustomServer, decoration: string): seq<string> {
    ["host=" + server.host, "key=" + server.key, "api=" + server.api, "relay=" + server.relay, decoration]
  }

  lemma PrefixKept(prefix: string, value: string)
    requires Lower(prefix) == prefix
    ensures StartsWith(Lower(prefix + value), prefix) && (prefix + value)[|prefix|..] == value
  {
    LowerConcat(prefix, value);
    assert (prefix + Lower(value))[0..|prefix|] == prefix;
  }

  lemma OtherPrefix(token: string, prefix: string)
    requires prefix != [] && (token == [] || LowerChar(token[0]) != prefix[0])
    ensures !StartsWith(Lower(token), prefix)
  {
  }

  lemma SettingReads(tokens: seq<string>, i: nat, prefix: string, value: string)
    requires i < |tokens| && tokens[i] == prefix + value && prefix != [] && Lower(prefix) == prefix
    requires forall k | i < k < |tokens| :: tokens[k] == [] || LowerChar(tokens[k][0]) != prefix[0]
    ensures LastWith(tokens, prefix) == value
  {
    PrefixKept(prefix, value);
    forall k | i < k < |tokens| ensures !StartsWith(Lower(tokens[k]), prefix) {
      OtherPrefix(tokens[k], prefix);
    }
    LastWithAt(tokens, prefix, i);
  }

  lemma LowerPrefixes()
    ensures Lower("host=") == "host=" && Lower("key=") == "key="
    ensures Lower("api=") == "api=" && Lower("relay=") == "relay="
  {
  }

  lemma SettingsRead(server: CustomServer, decoration: string)
    requires IsDecoration(decoration)
    ensures FromTokens(SettingTokens(server, decoration)) == server
  {
    var tokens := SettingTokens(server, decoration);
    LowerPrefixes();
    SettingReads(tokens, 0, "host=", server.host);
    SettingReads(tokens, 1, "key=", server.key);
    SettingReads(tokens, 2, "api=", server.api);
    SettingReads(tokens, 3, "relay=", server.relay);
  }

  lemma EndsElsewhere(s: string)
    requires s != [] && LowerChar(s[|s| - 1]) != 'e'
    ensures !HasExtension(s)
  {
    assert |s| >= 4 ==> Lower(s)[|s| - 4..][3] == LowerChar(s[|s| - 1]);
  }

  // ---------------------------------------------------------------------------------------------
  // What stands before the first setting
  // ---------------------------------------------------------------------------------------------

  /** Two lists of pieces whose texts are joined: the last piece of one and the first of the other become
      one piece. */
  function Merge(p: seq<string>, q: seq<string>): seq<string>
    requires p != [] && q != []
  {
    p[..|p| - 1] + [p[|p| - 1] + q[0]] + q[1..]
  }

  lemma MergeStep(c: char, p: seq<string>, q: seq<string>)
    requires p != [] && q != []
    ensures Merge([[c] + p[0]] + p[1..], q) == [[c] + Merge(p, q)[0]] + Merge(p, q)[1..]
    ensures Merge([[]] + p, q) == [[]] + Merge(p, q)
    ensures Merge([[]], q) == q
  {
    var first := [[c] + p[0]] + p[1..];
    if |p| == 1 {
      assert first == [[c] + p[0]];
      assert [c] + p[0] + q[0] == [c] + (p[0] + q[0]);
    } else {
      assert first[..|p| - 1] == [[c] + p[0]] + p[1..|p| - 1];
      assert Merge(p, q)[1..] == p[1..|p| - 1] + [p[|p| - 1] + q[0]] + q[1..];
    }
    assert ([[]] + p)[..|p|] == [[]] + p[..|p| - 1];
    assert [] + q[0] == q[0] && [q[0]] + q[1..] == q;
  }

  lemma {:induction false} SplitMerge(a: string, b: string)
    ensures Split(a + b, ",") == Merge(Split(a, ","), Split(b, ","))
    decreases |a|
  {
    if a == [] {
      assert a + b == b;
      MergeStep('x', [[]], Split(b, ","));
    } else {
      assert (a + b)[1..] == a[1..] + b && (a + b)[0] == a[0];
      SplitMerge(a[1..], b);
      MergeStep(a[0], Split(a[1..], ","), Split(b, ","));
      CommaHere(a);
      CommaHere(a + b);
      if a[0] == ',' {
        SplitHere(a, ",");
        SplitHere(a + b, ",");
      } else {
        SplitStep(a, ",");
        SplitStep(a + b, ",");
      }
    }
  }

  lemma CommaHere(s: string)
    requires s != []
    ensures OccursAt(",", s, 0) <==> s[0] == ','
  {
    assert s[0..1] == [s[0]];
  }

  /** No occurrence of `host=` goes on into another. */
  lemma HostDoesNotOverlap(a: string, b: string, i: nat)
    requires i < |a| < i + 5
    ensures !OccursAt("host=", a + ("host=" + b), i)
  {
    var s := a + ("host=" + b);
    assert s[|a|] == 'h';
    if OccursAt("host=", s, i) {
      OccursChar("host=", s, i, |a| - i);
    }
  }

  /** The first host assignment is the stem's own, if it has one. */
  lemma HostFound(stem: string, more: string)
    ensures var s := Lower(stem + ("host=" + more));
            Contains(s, "host=") &&
            Find(s, "host=") == if NamesHost(stem) then Find(Lower(stem), "host=") else |stem|
  {
    var a, b := Lower(stem), "host=" + Lower(more);
    LowerPrefixes();
    LowerConcat("host=", more);
    LowerConcat(stem, "host=" + more);
    FirstOccurrence(a, Lower(more));
  }

  lemma FirstOccurrence(a: string, more: string)
    ensures var s := a + ("host=" + more);
            Contains(s, "host=") && Find(s, "host=") == if Contains(a, "host=") then Find(a, "host=") else |a|
  {
    var s := a + ("host=" + more);
    assert s[|a|..|a| + 5] == "host=";
    assert OccursAt("host=", s, |a|);
    var i := Find(s, "host=");
    if i < |a| {
      if i + 5 > |a| {
        HostDoesNotOverlap(a, more, i);
      }
      OccursInside("host=", a, "host=" + more, i);
    }
    if Contains(a, "host=") {
      var k := Find(a, "host=");
      OccursInside("host=", a, "host=" + more, k);
      assert i <= k;
    }
  }

  lemma {:induction false} JoinEnds(tokens: seq<string>)
    requires |tokens| >= 2
    ensures var s, last := Join(tokens), tokens[|tokens| - 1];
            s != [] && s[|s| - 1] == if last == [] then ',' else last[|last| - 1]
  {
    if |tokens| == 2 {
      assert tokens[1..][0] == tokens[1];
    } else {
      JoinEnds(tokens[1..]);
    }
  }

  lemma SettingsSplit(server: CustomServer, decoration: string)
    requires IsDecoration(decoration)
    requires Without(server.key, ',') && Without(server.host, ',')
    requires Without(server.api, ',') && Without(server.relay, ',')
    ensures Split(Join(SettingTokens(server, decoration)), ",") == SettingTokens(server, decoration)
  {
    var tokens := SettingTokens(server, decoration);
    forall i | 0 <= i < |tokens| ensures Without(tokens[i], ',') {
      WithoutConcat("host=", server.host, ',');
      WithoutConcat("key=", server.key, ',');
      WithoutConcat("api=", server.api, ',');
      WithoutConcat("relay=", server.relay, ',');
    }
    SplitJoin(tokens);
  }

  lemma SettingsBegin(server: CustomServer, decoration: string) returns (more: string)
    ensures Join(SettingTokens(server, decoration)) == "host=" + more
  {
    var tokens := SettingTokens(server, decoration);
    more := server.host + ("," + Join(tokens[1..]));
    assert ("host=" + server.host) + ("," + Join(tokens[1..])) == "host=" + more;
  }

  lemma SettingsEnd(server: CustomServer, decoration: string)
    requires IsDecoration(decoration)
    ensures var body := Join(SettingTokens(server, decoration)); body != [] && LowerChar(body[|body| - 1]) != 'e'
  {
    JoinEnds(SettingTokens(server, decoration));
  }

  /** The tokens of the stem from its own host assignment on. */
  function StemTokens(stem: string): (tokens: seq<string>)
    requires NamesHost(stem)
    ensures tokens != []
  {
    Split(stem[Find(Lower(stem), "host=")..], ",")
  }

  lemma ReadFrom(verify: Verify, s: string, ext: string, i: nat)
    requires NamesHost(s) && !HasExtension(s) && IsExtension(ext) && Find(Lower(s), "host=") == i
    ensures i <= |s| && FromString(verify, s + ext) == Some(FromTokens(Split(s[i..], ",")))
  {
    ExtensionStripped(s, ext);
  }

  /** What is split: the settings, and before them what the stem has from its own host assignment on. */
  lemma TokensRead(verify: Verify, stem: string, body: string, more: string, ext: string)
    requires body == "host=" + more && IsExtension(ext) && LowerChar(body[|body| - 1]) != 'e'
    ensures FromString(verify, stem + body + ext)
         == Some(FromTokens(if NamesHost(stem) then Merge(StemTokens(stem), Split(body, ",")) else Split(body, ",")))
  {
    EndsElsewhere(stem + body);
    HostFound(stem, more);
    ReadFrom(verify, stem + body, ext, Find(Lower(stem + body), "host="));
    if NamesHost(stem) {
      var i := Find(Lower(stem), "host=");
      DropFrom(stem, body, i);
      SplitMerge(stem[i..], body);
    } else {
      DropFrom(stem, body, |stem|);
      assert [] + body == body;
    }
  }

  lemma DropFrom(a: string, b: string, i: nat)
    requires i <= |a|
    ensures (a + b)[i..] == a[i..] + b
  {
  }

  lemma LastWithOne(tokens: seq<string>, token: string, prefix: string)
    ensures LastWith(tokens + [token], prefix)
         == if StartsWith(Lower(token), prefix) then token[|prefix|..] else LastWith(tokens, prefix)
  {
    assert (tokens + [token])[..|tokens|] == tokens;
  }

  lemma {:induction false} LastWithSkips(tokens: seq<string>, more: seq<string>, prefix: string)
    requires forall k | 0 <= k < |more| :: !StartsWith(Lower(more[k]), prefix)
    ensures LastWith(tokens + more, prefix) == LastWith(tokens, prefix)
    decreases |more|
  {
    if more == [] {
      assert tokens + more == tokens;
    } else {
      var all := tokens + more;
      assert all[..|all| - 1] == tokens + more[..|more| - 1];
      LastWithSkips(tokens, more[..|more| - 1], prefix);
    }
  }

  /** A token with the host setting at its end begins with one exactly if nothing stands before it, or
      another host setting does. */
  lemma TokenBegins(t: string, host: string)
    ensures StartsWith(Lower(t + ("host=" + host)), "host=") <==> t == [] || StartsWith(Lower(t), "host=")
  {
    var a, b := Lower(t), Lower(host);
    LowerPrefixes();
    LowerConcat("host=", host);
    LowerConcat(t, "host=" + host);
    var s := a + ("host=" + b);
    if t == [] {
      assert s[0..5] == "host=";
    } else if |t| < 5 {
      HostDoesNotOverlap(a, b, 0);
    } else {
      OccursInside("host=", a, "host=" + b, 0);
    }
  }

  /** The host that is read when a stem's tokens come before the settings. */
  function HostAfter(tokens: seq<string>, host: string): string
    requires tokens != []
  {
    var last := tokens[|tokens| - 1];
    if last == [] then host
    else if StartsWith(Lower(last), "host=") then last[5..] + ("host=" + host)
    else LastWith(tokens[..|tokens| - 1], "host=")
  }

  lemma HostRead(tokens: seq<string>, host: string, more: seq<string>)
    requires tokens != [] && forall k | 0 <= k < |more| :: !StartsWith(Lower(more[k]), "host=")
    ensures LastWith(tokens[..|tokens| - 1] + [tokens[|tokens| - 1] + ("host=" + host)] + more, "host=")
         == HostAfter(tokens, host)
  {
    var init, last := tokens[..|tokens| - 1], tokens[|tokens| - 1];
    LastWithSkips(init + [last + ("host=" + host)], more, "host=");
    LastWithOne(init, last + ("host=" + host), "host=");
    TokenBegins(last, host);
    TokenCut(last, host);
  }

  lemma TokenCut(last: string, host: string)
    ensures last == [] ==> (last + ("host=" + host))[5..] == host
    ensures |last| >= 5 ==> (last + ("host=" + host))[5..] == last[5..] + ("host=" + host)
  {
  }

  lemma OthersAreNoHost(server: CustomServer, decoration: string)
    requires IsDecoration(decoration)
    ensures forall k | 1 <= k < 5 :: !StartsWith(Lower(SettingTokens(server, decoration)[k]), "host=")
  {
    var tokens := SettingTokens(server, decoration);
    forall k | 1 <= k < 5 ensures !StartsWith(Lower(tokens[k]), "host=") {
      OtherPrefix(tokens[k], "host=");
    }
  }

  /** Behind a stem's tokens the settings are read as they are, but for the host. */
  lemma MergedRead(tokens: seq<string>, server: CustomServer, decoration: string)
    requires tokens != [] && IsDecoration(decoration)
    ensures FromTokens(Merge(tokens, SettingTokens(server, decoration)))
         == server.(host := HostAfter(tokens, server.host))
  {
    var settings := SettingTokens(server, decoration);
    var all, n := Merge(tokens, settings), |tokens| - 1;
    LowerPrefixes();
    OthersAreNoHost(server, decoration);
    HostRead(tokens, server.host, settings[1..]);
    assert all[n + 1] == settings[1] && all[n + 2] == settings[2];
    assert all[n + 3] == settings[3] && all[n + 4] == settings[4];
    SettingReads(all, n + 1, "key=", server.key);
    SettingReads(all, n + 2, "api=", server.api);
    SettingReads(all, n + 3, "relay=", server.relay);
  }

  /** Text that may stand before the settings: it names no host, or it ends the last of its settings with
      a comma, or what it says of the host is the same and its end hides the one that follows. */
  predicate StemAllows(stem: string, host: string) {
    NamesHost(stem) ==>
      var tokens := StemTokens(stem);
      var last := tokens[|tokens| - 1];
      || last == []
      || (!StartsWith(Lower(last), "host=") && LastWith(tokens[..|tokens| - 1], "host=") == host)
  }

  /** Settings without commas, written out with a final comma, parse back whatever spaces and counters
      follow that comma and whatever dots the settings hold, if and only if the text before them allows
      it. */
  lemma CommaRoundTripIff(verify: Verify, server: CustomServer, stem: string, decoration: string, ext: string)
    requires IsDecoration(decoration) && IsExtension(ext)
    requires Without(server.key, ',') && Without(server.host, ',')
    requires Without(server.api, ',') && Without(server.relay, ',')
    ensures FromString(verify, stem + Join(SettingTokens(server, decoration)) + ext) == Some(server)
       <==> StemAllows(stem, server.host)
  {
    var more := SettingsBegin(server, decoration);
    SettingsEnd(server, decoration);
    TokensRead(verify, stem, Join(SettingTokens(server, decoration)), more, ext);
    SettingsSplit(server, decoration);
    if NamesHost(stem) {
      MergedRead(StemTokens(stem), server, decoration);
      HostKept(StemTokens(stem), server.host);
    } else {
      SettingsRead(server, decoration);
    }
  }

  lemma HostKept(tokens: seq<string>, host: string)
    requires tokens != []
    ensures var last := tokens[|tokens| - 1];
            HostAfter(tokens, host) == host
            <==> || last == []
                 || (!StartsWith(Lower(last), "host=") && LastWith(tokens[..|tokens| - 1], "host=") == host)
  {
    var last := tokens[|tokens| - 1];
    if last != [] && StartsWith(Lower(last), "host=") {
      assert |last[5..] + ("host=" + host)| > |host|;
    }
  }
}
