/** Where the round trip of a name fails. Beyond ASCII a name can hold a separator; for servers with every
    field filled, this module proves exactly when that keeps it from parsing back, and gives one for which
    it does. The file name that the generator itself prints is not found by the parser at all. */
module NameExactness {
  import opened Base64Url
  import opened ServerJson
  import opened ServerName
  import opened NameRoundTrip

  /** What a verified text says is no longer than the text: it is that text without its signature. */
  ghost predicate NeverLengthens(verify: Verify) {
    forall d: string | verify(d).Some? :: |verify(d).value| <= |d|
  }

  // ---------------------------------------------------------------------------------------------
  // Text too short for a server is not that server
  // ---------------------------------------------------------------------------------------------

  lemma {:induction false} TrimStartShortens(s: string)
    ensures |TrimStart(s)| <= |s|
    decreases |s|
  {
    if s != [] && IsWhitespace(s[0]) {
      TrimStartShortens(s[1..]);
    }
  }

  lemma {:induction false} TrimEndShortens(s: string)
    ensures |TrimEnd(s)| <= |s|
    decreases |s|
  {
    if s != [] && IsWhitespace(s[|s| - 1]) {
      TrimEndShortens(s[..|s| - 1]);
    }
  }

  lemma TrimShortens(s: string)
    ensures |Trim(s)| <= |s|
  {
    TrimStartShortens(s);
    TrimEndShortens(TrimStart(s));
  }

  /** Every piece is at least a separator shorter than the whole, if there is more than one. */
  lemma {:induction false} PieceLength(s: string, pattern: string, i: nat)
    requires pattern != [] && i < |Split(s, pattern)|
    ensures |Split(s, pattern)[i]| + (if |Split(s, pattern)| >= 2 then |pattern| else 0) <= |s|
    decreases |s|
  {
    if |s| < |pattern| {
    } else if s[..|pattern|] == pattern {
      if i > 0 {
        PieceLength(s[|pattern|..], pattern, i - 1);
      }
    } else {
      PieceLength(s[1..], pattern, i);
    }
  }

  lemma {:induction false} OccursSplits(s: string, pattern: string, i: nat)
    requires pattern != [] && OccursAt(pattern, s, i)
    ensures |Split(s, pattern)| >= 2
    decreases |s|
  {
    if s[..|pattern|] != pattern {
      assert i > 0;
      TailOccurs(pattern, s, i - 1);
      OccursSplits(s[1..], pattern, i - 1);
    }
  }

  /** Text whose decoding is shorter than the printed server. */
  predicate TooShort(s: string, server: CustomServer) {
    |s| * 3 / 4 < |Print(server)|
  }

  lemma ThreeQuarters(a: nat, b: nat)
    requires a <= b
    ensures a * 3 / 4 <= b * 3 / 4
  {
  }

  lemma DecodedIsShort(text: string)
    ensures var data := OrElse(Decode(text), DecodePadded(text));
            data.Some? ==> |data.value| <= |text| * 3 / 4
  {
    ThreeQuarters(|text| - Padding(text), |text|);
  }

  lemma ShortIsNotServer(verify: Verify, s: string, server: CustomServer)
    requires NeverLengthens(verify) && IsFull(server) && TooShort(s, server)
    ensures FromConfigString(verify, s) != Some(server)
  {
    var data := OrElse(Decode(Reverse(s)), DecodePadded(Reverse(s)));
    DecodedIsShort(Reverse(s));
    if data.Some? && Read(data.value) == Some(server) {
      PrintIsShortest(server, data.value);
    } else if data.Some? && verify(data.value).Some? && Read(verify(data.value).value) == Some(server) {
      PrintIsShortest(server, verify(data.value).value);
    }
  }

  lemma TrimmedIsNotServer(verify: Verify, s: string, server: CustomServer)
    requires NeverLengthens(verify) && IsFull(server) && TooShort(s, server)
    ensures FromConfigString(verify, Trim(s)) != Some(server)
  {
    TrimShortens(s);
    ThreeQuarters(|Trim(s)|, |s|);
    ShortIsNotServer(verify, Trim(s), server);
  }

  predicate AllTooShort(pieces: seq<string>, server: CustomServer) {
    forall i | 0 <= i < |pieces| :: TooShort(pieces[i], server)
  }

  lemma {:induction false} PiecesAreNotServer(verify: Verify, pieces: seq<string>, server: CustomServer)
    requires NeverLengthens(verify) && IsFull(server) && AllTooShort(pieces, server)
    ensures FirstConfig(verify, pieces) != Some(server)
    decreases |pieces|
  {
    if pieces != [] {
      TrimmedIsNotServer(verify, pieces[0], server);
      PiecesAreNotServer(verify, pieces[1..], server);
    }
  }

  lemma PartIsNotServer(verify: Verify, part: string, server: CustomServer)
    requires NeverLengthens(verify) && IsFull(server) && TooShort(part, server)
    ensures FromPart(verify, part) != Some(server)
  {
    var pieces := Split(part, "(");
    TrimmedIsNotServer(verify, part, server);
    forall i | 0 <= i < |pieces| ensures TooShort(pieces[i], server) {
      PieceLength(part, "(", i);
      ThreeQuarters(|pieces[i]|, |part|);
    }
    PiecesAreNotServer(verify, pieces, server);
  }

  lemma {:induction false} PartsAreNotServer(verify: Verify, parts: seq<string>, server: CustomServer)
    requires NeverLengthens(verify) && IsFull(server) && AllTooShort(parts, server)
    ensures FirstPart(verify, parts) != Some(server)
    decreases |parts|
  {
    if parts != [] {
      PartIsNotServer(verify, parts[0], server);
      PartsAreNotServer(verify, parts[1..], server);
    }
  }

  // ---------------------------------------------------------------------------------------------
  // A separator inside the name
  // ---------------------------------------------------------------------------------------------

  /** A name that holds a separator is cut by the parser. */
  lemma UncleanIsCut(s: string)
    requires !Clean(s)
    ensures HasDashes(Separated(s)) && |Separated(s)| <= |s|
  {
    var s1 := Replace(s, "-licensed---", "--");
    var s2 := Replace(s1, "-licensed--", "--");
    ReplaceLeavesDashes(s, "-licensed---");
    ReplaceLeavesDashes(s1, "-licensed--");
    ReplaceLeavesDashes(s2, "-licensed-");
    if !HasDashes(s2) {
      assert s2 == s;
      var i: nat :| OccursAt("--", s, i) || OccursAt("-licensed-", s, i);
      assert OccursAt("-licensed-", s, i) && i < |s|;
    }
  }

  lemma {:induction false} EncodedLength(b: string)
    requires IsBytes(b)
    ensures 3 * |Encode(b)| <= 4 * |b| + 2
    decreases |b|
  {
    if |b| > 3 {
      EncodedLength(b[3..]);
    }
  }

  /** Two characters less than a name decode to less than its printed server. */
  lemma CutNameIsTooShort(server: CustomServer, piece: string)
    requires ServerOfBytes(server) && |piece| + 2 <= |GenName(server)|
    ensures TooShort(piece, server)
  {
    PrintBelow(server, 256);
    EncodedLength(Print(server));
  }

  /** A separator inside the name of a full server keeps it from being found. */
  lemma UncleanNameFails(verify: Verify, server: CustomServer, stem: string, sep: string, ext: string)
    requires ServerOfBytes(server) && IsFull(server) && NeverLengthens(verify) && !Clean(GenName(server))
    requires EndsPlain(stem) && !NamesHost(stem) && NoServerIn(verify, stem) && IsSeparator(sep) && IsExtension(ext)
    ensures FromString(verify, stem + (sep + GenName(server)) + ext) != Some(server)
  {
    var name := GenName(server);
    NameShape(server);
    assert name + [] == name;
    NameWithout(server, []);
    NameLength(server);
    NoHost([]);
    FileIsNeutral(stem, sep, name, []);
    FoundAfter(verify, stem, sep, name, ext);
    UncleanIsCut(name);
    var u := Separated(name);
    var i: nat :| OccursAt("--", u, i);
    OccursSplits(u, "--", i);
    forall k | 0 <= k < |Split(u, "--")| ensures TooShort(Split(u, "--")[k], server) {
      PieceLength(u, "--", k);
      CutNameIsTooShort(server, Split(u, "--")[k]);
    }
    PartsAreNotServer(verify, Split(u, "--"), server);
  }

  /** For every server with all fields filled, whatever bytes they hold, the name parses back if and
      only if neither separator occurs in it. */
  lemma FullNameRoundTripIff(verify: Verify, server: CustomServer, stem: string, sep: string, ext: string)
    requires ServerOfBytes(server) && IsFull(server) && NeverLengthens(verify)
    requires EndsPlain(stem) && !NamesHost(stem) && NoServerIn(verify, stem) && IsSeparator(sep) && IsExtension(ext)
    ensures FromString(verify, stem + (sep + GenName(server)) + ext) == Some(server) <==> Clean(GenName(server))
  {
    var name := GenName(server);
    if Clean(name) {
      assert name + [] + [] == name;
      NoHost([]);
      CleanNameRoundTrip(verify, server, stem, sep, [], [], ext);
    } else {
      UncleanNameFails(verify, server, stem, sep, ext);
    }
  }

  // ---------------------------------------------------------------------------------------------
  // A server whose name fails
  // ---------------------------------------------------------------------------------------------

  /** Bytes that encode to a group with two dashes in its middle: one that is 3 modulo 4, then 0xEF and
      a continuation byte, with which the UTF-8 form of a fullwidth character begins. */
  predicate MakesDashes(b: string, i: nat) {
    i + 2 < |b| && b[i] as int % 4 == 3 && b[i + 1] as int == 0xEF && 0x80 <= b[i + 2] as int < 0xC0
  }

  lemma DashSextets(b0: nat, b1: nat, b2: nat)
    requires b0 < 256 && b0 % 4 == 3 && b1 == 0xEF && 0x80 <= b2 < 0xC0
    ensures Sextet1(b0, b1) == 62 && Sextet2(b1, b2) == 62
  {
  }

  lemma {:induction false} DashPair(b: string, j: nat)
    requires IsBytes(b) && MakesDashes(b, 3 * j)
    ensures 4 * j + 2 < |EncodeSextets(b)|
    ensures EncodeSextets(b)[4 * j + 1] == 62 && EncodeSextets(b)[4 * j + 2] == 62
    decreases j
  {
    if j == 0 {
      DashSextets(b[0] as int, b[1] as int, b[2] as int);
    } else {
      var rest := b[3..];
      assert MakesDashes(rest, 3 * (j - 1));
      DashPair(rest, j - 1);
    }
  }

  lemma EncodedDash(b: string, i: nat)
    requires IsBytes(b) && i < |EncodeSextets(b)| && EncodeSextets(b)[i] == 62
    ensures i < |Encode(b)| && Encode(b)[i] == '-'
  {
    EncodeIsChars(b);
  }

  lemma ReversedPair(text: string, i: nat)
    requires i + 1 < |text| && text[i] == '-' && text[i + 1] == '-'
    ensures HasDashes(Reverse(text))
  {
    var name, k := Reverse(text), |text| - 2 - i;
    assert name[k..k + 2] == [name[k], name[k + 1]];
    assert OccursAt("--", name, k);
  }

  lemma DashesInName(b: string, j: nat)
    requires IsBytes(b) && MakesDashes(b, 3 * j)
    ensures HasDashes(Reverse(Encode(b)))
  {
    DashPair(b, j);
    EncodedDash(b, 4 * j + 1);
    EncodedDash(b, 4 * j + 2);
    ReversedPair(Encode(b), 4 * j + 1);
  }

  lemma ValueInMember(name: string, value: string, i: nat)
    requires IsUnescaped(name) && IsUnescaped(value) && i < |value|
    ensures |name| + 4 + i < |PrintMember(name, value)| && PrintMember(name, value)[|name| + 4 + i] == value[i]
  {
    UnescapedPrints(name);
    UnescapedPrints(value);
    assert |Quote(name) + [':']| == |name| + 3;
    assert Quote(value)[1 + i] == value[i];
  }

  /** The printed key begins at the eighth byte. */
  lemma KeyInPrint(server: CustomServer, i: nat)
    requires IsUnescaped(server.key) && i < |server.key|
    ensures 8 + i < |Print(server)| && Print(server)[8 + i] == server.key[i]
  {
    ValueInMember("key", server.key, i);
    assert PrintMembers(MembersOf(server))[7 + i] == PrintMember("key", server.key)[7 + i];
  }

  /** Any key whose second to fourth bytes are such as to make dashes. */
  predicate MakesDashesInKey(key: string) {
    IsUnescaped(key) && MakesDashes(key, 1)
  }

  lemma DashesAreUnclean(s: string)
    requires HasDashes(s)
    ensures !Clean(s)
  {
    var i: nat :| OccursAt("--", s, i);
  }

  lemma PrintMakesDashes(server: CustomServer)
    requires MakesDashesInKey(server.key)
    ensures MakesDashes(Print(server), 9)
  {
    KeyInPrint(server, 1);
    KeyInPrint(server, 2);
    KeyInPrint(server, 3);
  }

  lemma KeyMakesUnclean(server: CustomServer)
    requires ServerOfBytes(server) && MakesDashesInKey(server.key)
    ensures !Clean(GenName(server))
  {
    PrintBelow(server, 256);
    PrintMakesDashes(server);
    DashesInName(Print(server), 3);
    DashesAreUnclean(GenName(server));
  }

  /** The letters `as` and a fullwidth exclamation mark, in UTF-8. */
  function FullwidthKey(): string {
    ['a', 's', 0xEF as char, 0xBC as char, 0x81 as char]
  }

  /** With that key and any other settings, the name does not parse back. */
  lemma FullwidthKeyFails(verify: Verify, server: CustomServer, stem: string, sep: string, ext: string)
    requires ServerOfBytes(server) && IsFull(server) && server.key == FullwidthKey() && NeverLengthens(verify)
    requires EndsPlain(stem) && !NamesHost(stem) && NoServerIn(verify, stem) && IsSeparator(sep) && IsExtension(ext)
    ensures FromString(verify, stem + (sep + GenName(server)) + ext) != Some(server)
  {
    KeyMakesUnclean(server);
    UncleanNameFails(verify, server, stem, sep, ext);
  }

  // ---------------------------------------------------------------------------------------------
  // The file name that the generator prints
  // ---------------------------------------------------------------------------------------------

  /** Decoding an encoding with more text right behind it, if it succeeds at all, gives the bytes encoded
      and then one more that depends on how many there were. */
  lemma {:induction false} DecodeEncodeThen(b: string, u: seq<Sextet>)
    requires IsBytes(b) && |u| >= 3 && u[0] == 62 && u[1] == 29
    ensures var data := DecodeSextets(EncodeSextets(b) + u);
            data.Some? ==> |data.value| > |b| && data.value[..|b|] == b && data.value[|b|] as int in {249, 15, 62}
    decreases |b|
  {
    if b == [] {
      assert EncodeSextets(b) + u == u;
    } else if |b| >= 3 {
      WholeGroup(b, u);
      DecodeEncodeThen(b[3..], u);
      var rest := DecodeSextets(EncodeSextets(b[3..]) + u);
      if rest.Some? {
        BytesThen(b, rest.value);
      }
    } else {
      PartialGroup(b, u);
    }
  }

  lemma EncodeFirst(b: string)
    requires IsBytes(b) && |b| >= 3
    ensures EncodeSextets(b) == Group(b[..3]) + EncodeSextets(b[3..])
  {
    if |b| == 3 {
      assert b[..3] == b && b[3..] == [];
      assert Group(b) + [] == Group(b);
    }
  }

  lemma DecodeFirst(head: seq<Sextet>, more: seq<Sextet>)
    requires |head| == 4 && more != [] && Ungroup(head).Some?
    ensures DecodeSextets(head + more)
         == var rest := DecodeSextets(more); if rest.None? then None else Some(Ungroup(head).value + rest.value)
  {
    var g := head + more;
    assert g[..4] == head && g[4..] == more;
  }

  lemma WholeGroup(b: string, u: seq<Sextet>)
    requires IsBytes(b) && |b| >= 3 && u != []
    ensures DecodeSextets(EncodeSextets(b) + u)
         == var rest := DecodeSextets(EncodeSextets(b[3..]) + u);
            if rest.None? then None else Some(b[..3] + rest.value)
  {
    UngroupGroup(b[..3]);
    EncodeFirst(b);
    DecodeGroupThen(Group(b[..3]), EncodeSextets(b[3..]), u, b[..3]);
  }

  lemma DecodeGroupThen(head: seq<Sextet>, more: seq<Sextet>, u: seq<Sextet>, bytes: string)
    requires |head| == 4 && u != [] && Ungroup(head) == Some(bytes)
    ensures DecodeSextets(head + more + u)
         == var rest := DecodeSextets(more + u); if rest.None? then None else Some(bytes + rest.value)
  {
    assert head + more + u == head + (more + u);
    DecodeFirst(head, more + u);
  }

  lemma BytesThen(b: string, r: string)
    requires |b| >= 3 && |r| > |b| - 3 && r[..|b| - 3] == b[3..]
    ensures var data := b[..3] + r; |data| > |b| && data[..|b|] == b && data[|b|] == r[|b| - 3]
  {
    var data := b[..3] + r;
    assert data[..|b|] == b[..3] + r[..|b| - 3];
    assert b[..3] + b[3..] == b;
  }

  lemma PartialGroup(b: string, u: seq<Sextet>)
    requires IsBytes(b) && 1 <= |b| <= 2 && |u| >= 3 && u[0] == 62 && u[1] == 29
    ensures var data := DecodeSextets(EncodeSextets(b) + u);
            data.Some? ==> |data.value| > |b| && data.value[..|b|] == b && data.value[|b|] as int in {15, 62}
  {
    var g := EncodeSextets(b) + u;
    var first := g[..4];
    assert |g| > 4;
    HighByteBack(b[0] as int, if |b| == 1 then 0 else b[1] as int);
    UnusedBits(b[0] as int);
    if |b| == 1 {
      assert first == [Sextet0(b[0] as int), Sextet1(b[0] as int, 0), 62, 29];
    } else {
      MiddleByteBack(b[0] as int, b[1] as int, 0);
      UnusedBits(b[1] as int);
      assert first == [Sextet0(b[0] as int), Sextet1(b[0] as int, b[1] as int), Sextet2(b[1] as int, 0), 62];
    }
  }

  /** A prefix as the generator prints it: base64 text that ends in `d-` and in which nothing begins as a
      separator does. */
  predicate LooksPrinted(prefix: string) {
    && |prefix| >= 3 && AllInAlphabet(prefix) && prefix[0] != '-' && prefix[0] != 'l'
    && prefix[|prefix| - 2] == 'd' && prefix[|prefix| - 1] == '-'
    && forall i | 0 <= i < |prefix| - 1 && prefix[i] == '-' :: prefix[i + 1] != '-' && prefix[i + 1] != 'l'
  }

  lemma PrintedLooksSo(prefix: string)
    requires prefix == "rustdesk-custom_serverd-"
    ensures LooksPrinted(prefix)
  {
  }

  lemma PrefixedFollows(prefix: string, name: string)
    requires LooksPrinted(prefix) && Follows(name)
    ensures Follows(prefix + name)
  {
    var s := prefix + name;
    forall i: nat ensures !OccursAt("--", s, i) && !OccursAt("-licensed-", s, i) {
      SeparatorChars(s, i);
      if i >= |prefix| {
        AfterOccurs("--", prefix, name, i - |prefix|);
        AfterOccurs("-licensed-", prefix, name, i - |prefix|);
      }
    }
  }

  lemma PrefixedSextets(prefix: string, b: string)
    requires LooksPrinted(prefix) && IsBytes(b)
    ensures var text := Reverse(prefix + Reverse(Encode(b)));
            AllInAlphabet(text) && Sextets(text) == EncodeSextets(b) + Sextets(Reverse(prefix))
    ensures var u := Sextets(Reverse(prefix)); |u| >= 3 && u[0] == 62 && u[1] == 29
  {
    ReversedPrefix(prefix, Encode(b));
    EncodeIsChars(b);
    SextetsOfChars(EncodeSextets(b));
    SextetsConcat(Encode(b), Reverse(prefix));
    assert Reverse(prefix)[0] == '-' && Reverse(prefix)[1] == 'd';
  }

  lemma ReversedPrefix(prefix: string, text: string)
    ensures Reverse(prefix + Reverse(text)) == text + Reverse(prefix)
  {
  }

  lemma SextetsConcat(a: string, b: string)
    requires AllInAlphabet(a) && AllInAlphabet(b)
    ensures AllInAlphabet(a + b) && Sextets(a + b) == Sextets(a) + Sextets(b)
  {
  }

  /** The printed server with one of these bytes behind it is no server. */
  lemma GarbageIsNoServer(server: CustomServer, data: string)
    requires |data| > |Print(server)| && data[..|Print(server)|] == Print(server)
    requires data[|Print(server)|] as int in {249, 15, 62}
    ensures Read(data) == None
  {
    var rest := data[|Print(server)|..];
    assert data == Print(server) + rest;
    PrintReadsIff(server, rest);
  }

  /** What the parser decodes a text to. */
  function Decoded(s: string): Option<string> {
    OrElse(Decode(Reverse(s)), DecodePadded(Reverse(s)))
  }

  lemma PrefixedIsNoConfig(verify: Verify, prefix: string, server: CustomServer)
    requires LooksPrinted(prefix) && ServerOfBytes(server)
    requires Decoded(prefix + GenName(server)).Some? ==> verify(Decoded(prefix + GenName(server)).value).None?
    ensures FromConfigString(verify, prefix + GenName(server)) == None
  {
    PrintBelow(server, 256);
    var text := Reverse(prefix + GenName(server));
    PrefixedSextets(prefix, Print(server));
    UnpaddedDecodes(text);
    DecodeEncodeThen(Print(server), Sextets(Reverse(prefix)));
    var data := Decode(text);
    if data.Some? {
      GarbageIsNoServer(server, data.value);
    }
  }

  lemma UnpaddedDecodes(text: string)
    requires AllInAlphabet(text)
    ensures OrElse(Decode(text), DecodePadded(text)) == Decode(text)
  {
    assert Padding(text) == 0 && text[..|text|] == text;
  }

  /** The file name that the generator prints for a server whose name holds no separator parses to
      nothing, unless the signature check takes the decoded text for a signed one. */
  lemma PrintedNameIsNotFound(verify: Verify, prefix: string, server: CustomServer, ext: string)
    requires prefix == "rustdesk-custom_serverd-" && ServerOfBytes(server) && Clean(GenName(server)) && IsExtension(ext)
    requires Decoded(prefix + GenName(server)).Some? ==> verify(Decoded(prefix + GenName(server)).value).None?
    ensures FromString(verify, prefix + GenName(server) + ext) == None
  {
    var name := GenName(server);
    PrintedLooksSo(prefix);
    NameShape(server);
    assert name + [] == name;
    NameFollows(server, []);
    PrefixedFollows(prefix, name);
    PrefixedIsNoConfig(verify, prefix, server);
    TextIsOnePart(verify, prefix + name, ext);
  }

  /** Base64 text without separators is one part, and is taken as a whole. */
  lemma TextIsOnePart(verify: Verify, s: string, ext: string)
    requires AllInAlphabet(s) && |s| >= 4 && Follows(s) && IsExtension(ext)
    ensures FromString(verify, s + ext) == FromConfigString(verify, s)
  {
    AlphabetWithout(s);
    NoHost(s);
    NoExtensionHere(s);
    FoundInParts(verify, s, ext);
    CleanIsOne(s);
    WholePart(verify, s);
  }

  lemma AlphabetWithout(s: string)
    requires AllInAlphabet(s)
    ensures Without(s, '=') && Without(s, '.') && Without(s, '(')
  {
  }

  lemma CleanIsOne(s: string)
    requires Follows(s)
    ensures Separated(s) == s && Split(s, "--") == [s]
  {
    var more := BareReplaced(s, []);
    assert s + [] == s && more == [];
    DashesNotInTail(s, []);
    SplitAfter(s, [], "--");
  }

  lemma NoExtensionHere(s: string)
    requires Without(s, '.') && |s| >= 4
    ensures !HasExtension(s)
  {
    assert Lower(s)[|s| - 4..][0] == LowerChar(s[|s| - 4]);
  }

  lemma WholePart(verify: Verify, s: string)
    requires AllInAlphabet(s) && s != []
    ensures FirstPart(verify, [s]) == FromConfigString(verify, s)
  {
    TrimNothing(s);
    AlphabetWithout(s);
    NoParenthesis(s);
    assert [s][1..] == [];
    assert FirstPart(verify, []) == None;
  }
}
