/** The JSON form of a custom server: what the serializer prints, and a reader of objects whose
    values are strings (section 7 of RFC 8259 for strings). A byte is a character below 256, so a
    field holds the UTF-8 bytes of its text. */
module ServerJson {
  import opened Base64Url

  datatype CustomServer = CustomServer(key: string, host: string, api: string, relay: string)

  predicate ServerOfBytes(server: CustomServer) {
    IsBytes(server.key) && IsBytes(server.host) && IsBytes(server.api) && IsBytes(server.relay)
  }

  predicate ServerOfAscii(server: CustomServer) {
    IsAscii(server.key) && IsAscii(server.host) && IsAscii(server.api) && IsAscii(server.relay)
  }

  // ---------------------------------------------------------------------------------------------
  // Printing
  // ---------------------------------------------------------------------------------------------

  function HexDigit(n: nat): char
    requires n < 16
  {
    if n < 10 then (48 + n) as char else (87 + n) as char
  }

  function EscapeChar(c: char): string {
    if c == '"' then ['\\', '"']
    else if c == '\\' then ['\\', '\\']
    else if c as int == 8 then ['\\', 'b']
    else if c == '\t' then ['\\', 't']
    else if c == '\n' then ['\\', 'n']
    else if c as int == 12 then ['\\', 'f']
    else if c == '\r' then ['\\', 'r']
    else if c as int < 32 then ['\\', 'u', '0', '0', HexDigit(c as int / 16), HexDigit(c as int % 16)]
    else [c]
  }

  function Escape(s: string): string {
    if s == [] then [] else EscapeChar(s[0]) + Escape(s[1..])
  }

  function Quote(s: string): string {
    ['"'] + Escape(s) + ['"']
  }

  function PrintMember(name: string, value: string): string {
    Quote(name) + [':'] + Quote(value)
  }

  /** Members, separated by commas, and the closing brace. */
  function PrintMembers(members: seq<(string, string)>): string
    requires members != []
  {
    var first := PrintMember(members[0].0, members[0].1);
    if |members| == 1 then first + ['}'] else first + [','] + PrintMembers(members[1..])
  }

  function MembersOf(server: CustomServer): seq<(string, string)> {
    [("key", server.key), ("host", server.host), ("api", server.api), ("relay", server.relay)]
  }

  function Print(server: CustomServer): string {
    ['{'] + PrintMembers(MembersOf(server))
  }

  // ---------------------------------------------------------------------------------------------
  // Reading
  // ---------------------------------------------------------------------------------------------

  predicate IsSpace(c: char) {
    c == ' ' || c == '\t' || c == '\n' || c == '\r'
  }

  function SkipSpace(s: string): (r: string)
    ensures |r| <= |s|
  {
    if s != [] && IsSpace(s[0]) then SkipSpace(s[1..]) else s
  }

  function HexValue(c: char): Option<nat> {
    if '0' <= c <= '9' then Some(c as int - 48)
    else if 'a' <= c <= 'f' then Some(c as int - 87)
    else if 'A' <= c <= 'F' then Some(c as int - 55)
    else None
  }

  /** The four digits after `\u`. */
  function Hex4(s: string): Option<nat> {
    if |s| < 4 then None else
    var a, b, c, d := HexValue(s[0]), HexValue(s[1]), HexValue(s[2]), HexValue(s[3]);
    if a.None? || b.None? || c.None? || d.None? then None
    else Some(((a.value * 16 + b.value) * 16 + c.value) * 16 + d.value)
  }

  /** The UTF-8 bytes of a code point below the surrogates or between them and 0x10000. */
  function Utf8(code: nat): Option<string> {
    if code < 0x80 then Some([code as char])
    else if code < 0x800 then Some([(0xC0 + code / 64) as char, (0x80 + code % 64) as char])
    else if code < 0xD800 || 0xE000 <= code < 0x10000 then
      Some([(0xE0 + code / 4096) as char, (0x80 + code / 64 % 64) as char, (0x80 + code % 64) as char])
    else None
  }

  /** What follows a backslash: the bytes it stands for, and the rest. */
  function ReadEscape(s: string): (r: Option<(string, string)>)
    ensures r.Some? ==> |r.value.1| < |s|
  {
    if s == [] then None
    else if s[0] == '"' || s[0] == '\\' || s[0] == '/' then Some(([s[0]], s[1..]))
    else if s[0] == 'b' then Some(([8 as char], s[1..]))
    else if s[0] == 't' then Some((['\t'], s[1..]))
    else if s[0] == 'n' then Some((['\n'], s[1..]))
    else if s[0] == 'f' then Some(([12 as char], s[1..]))
    else if s[0] == 'r' then Some((['\r'], s[1..]))
    else if s[0] == 'u' then
      var code := Hex4(s[1..]);
      if code.None? then None else
      var bytes := Utf8(code.value);
      if bytes.None? then None else Some((bytes.value, s[5..]))
    else None
  }

  /** The rest of a string after its opening quote: its bytes, and what follows the closing quote. */
  function ReadString(s: string): (r: Option<(string, string)>)
    ensures r.Some? ==> |r.value.1| < |s|
  {
    if s == [] then None
    else if s[0] == '"' then Some(([], s[1..]))
    else if s[0] == '\\' then
      var escape := ReadEscape(s[1..]);
      if escape.None? then None else
      var rest := ReadString(escape.value.1);
      if rest.None? then None else Some((escape.value.0 + rest.value.0, rest.value.1))
    else if s[0] as int < 32 then None
    else
      var rest := ReadString(s[1..]);
      if rest.None? then None else Some(([s[0]] + rest.value.0, rest.value.1))
  }

  /** `c`, after spaces. */
  function Expect(s: string, c: char): (r: Option<string>)
    ensures r.Some? ==> |r.value| < |s|
  {
    var s := SkipSpace(s);
    if s != [] && s[0] == c then Some(s[1..]) else None
  }

  function ReadQuoted(s: string): (r: Option<(string, string)>)
    ensures r.Some? ==> |r.value.1| < |s|
  {
    var body := Expect(s, '"');
    if body.None? then None else ReadString(body.value)
  }

  /** A name, a colon and a value. */
  function ReadMember(s: string): (r: Option<(string, string, string)>)
    ensures r.Some? ==> |r.value.2| < |s|
  {
    var name := ReadQuoted(s);
    if name.None? then None else
    var after := Expect(name.value.1, ':');
    if after.None? then None else
    var value := ReadQuoted(after.value);
    if value.None? then None else Some((name.value.0, value.value.0, value.value.1))
  }

  /** The fields seen so far, by name. */
  type Fields = map<string, string>

  predicate IsField(name: string) {
    name == "key" || name == "host" || name == "api" || name == "relay"
  }

  /** A field may be given once; names that are not fields are passed over. */
  function SetField(fields: Fields, name: string, value: string): Option<Fields> {
    if !IsField(name) then Some(fields)
    else if name in fields then None
    else Some(fields[name := value])
  }

  /** The members of an object, up to and with its closing brace. */
  function ReadMembers(s: string, fields: Fields): Option<(Fields, string)>
    decreases |s|
  {
    var member := ReadMember(s);
    if member.None? then None else
    var set_ := SetField(fields, member.value.0, member.value.1);
    if set_.None? then None else
    var rest := member.value.2;
    var more, end := Expect(rest, ','), Expect(rest, '}');
    if more.Some? then ReadMembers(more.value, set_.value)
    else if end.Some? then Some((set_.value, end.value))
    else None
  }

  function OrEmpty(fields: Fields, name: string): string {
    if name in fields then fields[name] else []
  }

  function ServerOf(fields: Fields): CustomServer {
    CustomServer(OrEmpty(fields, "key"), OrEmpty(fields, "host"), OrEmpty(fields, "api"), OrEmpty(fields, "relay"))
  }

  /** An object and nothing after it; a field that is not given is empty. */
  function Read(s: string): Option<CustomServer> {
    var body := Expect(s, '{');
    if body.None? then None else
    var empty := Expect(body.value, '}');
    var members := if empty.Some? then Some((map[], empty.value)) else ReadMembers(body.value, map[]);
    if members.None? || SkipSpace(members.value.1) != [] then None
    else Some(ServerOf(members.value.0))
  }

  // ---------------------------------------------------------------------------------------------
  // What was printed reads back
  // ---------------------------------------------------------------------------------------------

  lemma HexDigitReads(n: nat)
    requires n < 16
    ensures HexValue(HexDigit(n)) == Some(n)
  {
  }

  lemma UnicodeEscapeReads(c: char, rest: string)
    requires c as int < 32
    ensures ReadEscape(['u', '0', '0', HexDigit(c as int / 16), HexDigit(c as int % 16)] + rest)
         == Some(([c], rest))
  {
    var digits := ['0', '0', HexDigit(c as int / 16), HexDigit(c as int % 16)];
    var s := ['u'] + digits + rest;
    assert ['u', '0', '0', HexDigit(c as int / 16), HexDigit(c as int % 16)] + rest == s;
    HexDigitReads(c as int / 16);
    HexDigitReads(c as int % 16);
    assert s[1..] == digits + rest && s[5..] == rest;
    assert Hex4(digits + rest) == Some(c as int);
  }

  lemma ShortEscapeReads(c: char, letter: char, rest: string)
    requires ReadString(rest).Some? && letter != 'u' && ReadEscape([letter] + rest) == Some(([c], rest))
    ensures ReadString(['\\', letter] + rest)
         == Some(([c] + ReadString(rest).value.0, ReadString(rest).value.1))
  {
    assert (['\\', letter] + rest)[1..] == [letter] + rest;
  }

  lemma LetterReads(letter: char, rest: string)
    ensures ([letter] + rest)[0] == letter && ([letter] + rest)[1..] == rest
  {
  }

  /** One escaped character in front of anything reads back as itself. */
  lemma EscapedCharReads(c: char, rest: string)
    requires ReadString(rest).Some?
    ensures ReadString(EscapeChar(c) + rest)
         == Some(([c] + ReadString(rest).value.0, ReadString(rest).value.1))
  {
    if |EscapeChar(c)| == 1 {
      assert (EscapeChar(c) + rest)[1..] == rest;
    } else if |EscapeChar(c)| == 2 {
      var letter := EscapeChar(c)[1];
      LetterReads(letter, rest);
      ShortEscapeReads(c, letter, rest);
    } else {
      var tail := ['u', '0', '0', HexDigit(c as int / 16), HexDigit(c as int % 16)];
      assert (EscapeChar(c) + rest)[1..] == tail + rest;
      UnicodeEscapeReads(c, rest);
    }
  }

  lemma EscapeFirst(s: string, rest: string)
    requires s != []
    ensures Escape(s) + ['"'] + rest == EscapeChar(s[0]) + (Escape(s[1..]) + ['"'] + rest)
  {
  }

  lemma {:induction false} EscapedReads(s: string, rest: string)
    ensures ReadString(Escape(s) + ['"'] + rest) == Some((s, rest))
    decreases |s|
  {
    if s == [] {
      assert Escape(s) + ['"'] + rest == ['"'] + rest;
      assert (['"'] + rest)[1..] == rest;
    } else {
      EscapedReads(s[1..], rest);
      EscapedCharReads(s[0], Escape(s[1..]) + ['"'] + rest);
      EscapeFirst(s, rest);
      assert [s[0]] + s[1..] == s;
    }
  }

  lemma ExpectHere(c: char, rest: string)
    requires !IsSpace(c)
    ensures Expect([c] + rest, c) == Some(rest)
    ensures forall d | d != c :: Expect([c] + rest, d) == None
  {
    assert ([c] + rest)[1..] == rest;
  }

  lemma QuotedReads(s: string, rest: string)
    ensures ReadQuoted(Quote(s) + rest) == Some((s, rest))
  {
    var body := Escape(s) + ['"'] + rest;
    assert Quote(s) + rest == ['"'] + body;
    ExpectHere('"', body);
    EscapedReads(s, rest);
  }

  lemma MemberReads(name: string, value: string, rest: string)
    ensures ReadMember(PrintMember(name, value) + rest) == Some((name, value, rest))
  {
    var after := Quote(value) + rest;
    assert PrintMember(name, value) + rest == Quote(name) + ([':'] + after);
    QuotedReads(name, [':'] + after);
    ExpectHere(':', after);
    QuotedReads(value, rest);
  }

  /** A member that is followed by another. */
  lemma MembersGoOn(name: string, value: string, rest: string, fields: Fields)
    requires IsField(name) && name !in fields
    ensures ReadMembers(PrintMember(name, value) + [','] + rest, fields)
         == ReadMembers(rest, fields[name := value])
  {
    assert PrintMember(name, value) + [','] + rest == PrintMember(name, value) + ([','] + rest);
    MemberReads(name, value, [','] + rest);
    ExpectHere(',', rest);
  }

  /** The last member, and whatever follows the object. */
  lemma MembersEnd(name: string, value: string, rest: string, fields: Fields)
    requires IsField(name) && name !in fields
    ensures ReadMembers(PrintMember(name, value) + ['}'] + rest, fields) == Some((fields[name := value], rest))
  {
    assert PrintMember(name, value) + ['}'] + rest == PrintMember(name, value) + (['}'] + rest);
    MemberReads(name, value, ['}'] + rest);
    ExpectHere('}', rest);
  }

  /** Fields, each given once and none of them set before. */
  predicate Settable(members: seq<(string, string)>, fields: Fields) {
    && (forall i | 0 <= i < |members| :: IsField(members[i].0) && members[i].0 !in fields)
    && (forall i, j | 0 <= i < j < |members| :: members[i].0 != members[j].0)
  }

  function SetAll(members: seq<(string, string)>, fields: Fields): Fields {
    if members == [] then fields else SetAll(members[1..], fields[members[0].0 := members[0].1])
  }

  lemma {:induction false} PrintedMembersRead(members: seq<(string, string)>, fields: Fields, rest: string)
    requires members != [] && Settable(members, fields)
    ensures ReadMembers(PrintMembers(members) + rest, fields) == Some((SetAll(members, fields), rest))
    decreases |members|
  {
    var (name, value) := members[0];
    if |members| == 1 {
      MembersEnd(name, value, rest, fields);
      assert members[1..] == [];
    } else {
      var more := PrintMembers(members[1..]);
      MembersGoOn(name, value, more + rest, fields);
      assert PrintMember(name, value) + [','] + more + rest == PrintMember(name, value) + [','] + (more + rest);
      assert Settable(members[1..], fields[name := value]);
      PrintedMembersRead(members[1..], fields[name := value], rest);
    }
  }

  lemma FieldNamesDiffer()
    ensures "key" != "host" && "key" != "api" && "key" != "relay"
    ensures "host" != "api" && "host" != "relay" && "api" != "relay"
  {
    assert "key"[0] == 'k' && "host"[0] == 'h' && "api"[0] == 'a' && "relay"[0] == 'r';
  }

  /** A brace and members that begin with a quote read as those members, if only spaces follow. */
  lemma ObjectReads(members: string, fields: Fields, rest: string)
    requires members != [] && members[0] == '"' && ReadMembers(members, map[]) == Some((fields, rest))
    ensures Read(['{'] + members) == if SkipSpace(rest) == [] then Some(ServerOf(fields)) else None
  {
    ExpectHere('{', members);
  }

  lemma MembersBeginQuoted(members: seq<(string, string)>)
    requires members != []
    ensures PrintMembers(members) != [] && PrintMembers(members)[0] == '"'
  {
  }

  lemma {:induction false} SetAllGives(members: seq<(string, string)>, fields: Fields, i: nat)
    requires Settable(members, fields) && i < |members|
    ensures OrEmpty(SetAll(members, fields), members[i].0) == members[i].1
    decreases |members|
  {
    var set_ := fields[members[0].0 := members[0].1];
    assert Settable(members[1..], set_);
    if i == 0 {
      SetAllKeeps(members[1..], set_, members[0].0);
    } else {
      SetAllGives(members[1..], set_, i - 1);
    }
  }

  lemma {:induction false} SetAllKeeps(members: seq<(string, string)>, fields: Fields, name: string)
    requires Settable(members, fields) && name in fields
    ensures OrEmpty(SetAll(members, fields), name) == fields[name]
    decreases |members|
  {
    if members != [] {
      var set_ := fields[members[0].0 := members[0].1];
      assert Settable(members[1..], set_);
      SetAllKeeps(members[1..], set_, name);
    }
  }

  lemma ServerSettable(server: CustomServer)
    ensures Settable(MembersOf(server), map[])
  {
    FieldNamesDiffer();
  }

  lemma FieldsOfServer(server: CustomServer)
    ensures ServerOf(SetAll(MembersOf(server), map[])) == server
  {
    var members := MembersOf(server);
    ServerSettable(server);
    SetAllGives(members, map[], 0);
    SetAllGives(members, map[], 1);
    SetAllGives(members, map[], 2);
    SetAllGives(members, map[], 3);
  }

  lemma MembersObjectReads(members: seq<(string, string)>, rest: string)
    requires members != [] && Settable(members, map[])
    ensures Read(['{'] + (PrintMembers(members) + rest))
         == if SkipSpace(rest) == [] then Some(ServerOf(SetAll(members, map[]))) else None
  {
    PrintedMembersRead(members, map[], rest);
    MembersBeginQuoted(members);
    ObjectReads(PrintMembers(members) + rest, SetAll(members, map[]), rest);
  }

  /** Reading what was printed gives the same server if only spaces follow, and nothing otherwise. */
  lemma PrintReadsIff(server: CustomServer, rest: string)
    ensures Read(Print(server) + rest) == if SkipSpace(rest) == [] then Some(server) else None
  {
    var members := MembersOf(server);
    ServerSettable(server);
    MembersObjectReads(members, rest);
    FieldsOfServer(server);
    Regrouped('{', PrintMembers(members), rest);
  }

  lemma Regrouped(c: char, a: string, b: string)
    ensures ([c] + a) + b == [c] + (a + b)
  {
  }

  /** Reading what was printed gives the same server. */
  lemma PrintReads(server: CustomServer)
    ensures Read(Print(server)) == Some(server)
  {
    PrintReadsIff(server, []);
    assert Print(server) + [] == Print(server);
  }

  // ---------------------------------------------------------------------------------------------
  // What else the two agree on
  // ---------------------------------------------------------------------------------------------

  /** The printed form: the four fields under their names, in the order of the record. */
  lemma PrintFormat(server: CustomServer)
    ensures Print(server)
         == ['{'] + (PrintMember("key", server.key) + [',']
            + (PrintMember("host", server.host) + [',']
            + (PrintMember("api", server.api) + [','] + (PrintMember("relay", server.relay) + ['}']))))
  {
    FourPrinted(("key", server.key), ("host", server.host), ("api", server.api), ("relay", server.relay));
  }

  lemma FourPrinted(a: (string, string), b: (string, string), c: (string, string), d: (string, string))
    ensures PrintMembers([a, b, c, d])
         == PrintMember(a.0, a.1) + [','] + (PrintMember(b.0, b.1) + [','] + (PrintMember(c.0, c.1) + [',']
            + (PrintMember(d.0, d.1) + ['}'])))
  {
    assert [a, b, c, d][1..] == [b, c, d] && [b, c, d][1..] == [c, d] && [c, d][1..] == [d];
    assert PrintMembers([d]) == PrintMember(d.0, d.1) + ['}'];
    assert PrintMembers([c, d]) == PrintMember(c.0, c.1) + [','] + PrintMembers([d]);
  }

  /** Exactly the four kinds of space are passed over. */
  lemma {:induction false} SpacesSkipped(spaces: string, rest: string)
    requires forall i | 0 <= i < |spaces| :: spaces[i] as int in {32, 9, 10, 13}
    requires rest == [] || rest[0] as int !in {32, 9, 10, 13}
    ensures SkipSpace(spaces + rest) == rest
    decreases |spaces|
  {
    if spaces == [] {
      assert spaces + rest == rest;
    } else {
      assert (spaces + rest)[1..] == spaces[1..] + rest;
      SpacesSkipped(spaces[1..], rest);
    }
  }

  /** A name that is no field is passed over, with its value; a field given twice is an error. */
  lemma OtherMembers(name: string, value: string, rest: string, fields: Fields)
    ensures !IsField(name) ==>
              ReadMembers(PrintMember(name, value) + [','] + rest, fields) == ReadMembers(rest, fields)
    ensures IsField(name) && name in fields ==>
              ReadMembers(PrintMember(name, value) + [','] + rest, fields) == None
  {
    assert PrintMember(name, value) + [','] + rest == PrintMember(name, value) + ([','] + rest);
    MemberReads(name, value, [','] + rest);
    ExpectHere(',', rest);
  }

  const LOWER_DIGITS := "0123456789abcdef"
  const UPPER_DIGITS := "0123456789ABCDEF"

  /** A character is read as a hexadecimal digit exactly if it is that digit in one of the two cases. */
  lemma HexDigitIff(c: char, n: nat)
    requires n < 16
    ensures HexValue(c) == Some(n) <==> c == LOWER_DIGITS[n] || c == UPPER_DIGITS[n]
  {
    assert n < 10 ==> LOWER_DIGITS[n] == (48 + n) as char == UPPER_DIGITS[n];
    assert n >= 10 ==> LOWER_DIGITS[n] == (87 + n) as char && UPPER_DIGITS[n] == (55 + n) as char;
  }

  /** Four digits after `\u` are read as the number they make, the most significant first. */
  lemma EscapeReads(s: string, a: nat, b: nat, c: nat, d: nat)
    requires |s| >= 5 && s[0] == 'u' && a < 16 && b < 16 && c < 16 && d < 16
    requires HexValue(s[1]) == Some(a) && HexValue(s[2]) == Some(b) && HexValue(s[3]) == Some(c)
    requires HexValue(s[4]) == Some(d)
    ensures var bytes := Utf8(a * 4096 + b * 256 + c * 16 + d);
            ReadEscape(s) == if bytes.Some? then Some((bytes.value, s[5..])) else None
  {
    var t := s[1..];
    assert t[0] == s[1] && t[1] == s[2] && t[2] == s[3] && t[3] == s[4];
    assert Hex4(t) == Some(a * 4096 + b * 256 + c * 16 + d);
  }

  /** An escaped code point stands for its UTF-8 bytes, from which it can be told. */
  lemma Utf8Value(code: nat)
    ensures Utf8(code).None? <==> 0xD800 <= code < 0xE000 || code >= 0x10000
    ensures code < 0x80 ==> Utf8(code) == Some([code as char])
    ensures 0x80 <= code < 0x800 ==>
              && |Utf8(code).value| == 2
              && var b0, b1 := Utf8(code).value[0] as int, Utf8(code).value[1] as int;
                 0xC0 <= b0 < 0xE0 && 0x80 <= b1 < 0xC0 && (b0 - 0xC0) * 64 + (b1 - 0x80) == code
    ensures 0x800 <= code && Utf8(code).Some? ==>
              && |Utf8(code).value| == 3
              && var b0, b1, b2 := Utf8(code).value[0] as int, Utf8(code).value[1] as int, Utf8(code).value[2] as int;
                 && 0xE0 <= b0 < 0xF0 && 0x80 <= b1 < 0xC0 && 0x80 <= b2 < 0xC0
                 && ((b0 - 0xE0) * 64 + (b1 - 0x80)) * 64 + (b2 - 0x80) == code
  {
  }

  // ---------------------------------------------------------------------------------------------
  // The bytes of the printed form
  // ---------------------------------------------------------------------------------------------

  /** Every character is below `limit`. */
  predicate Below(s: string, limit: nat) {
    forall i | 0 <= i < |s| :: s[i] as int < limit
  }

  lemma {:induction false} EscapeBelow(s: string, limit: nat)
    requires Below(s, limit) && limit >= 128
    ensures Below(Escape(s), limit)
    decreases |s|
  {
    if s != [] {
      EscapeBelow(s[1..], limit);
      assert Below(EscapeChar(s[0]), limit);
    }
  }

  lemma MemberBelow(name: string, value: string, limit: nat)
    requires Below(name, limit) && Below(value, limit) && limit >= 128
    ensures Below(PrintMember(name, value), limit)
  {
    EscapeBelow(name, limit);
    EscapeBelow(value, limit);
  }

  lemma {:induction false} MembersBelow(members: seq<(string, string)>, limit: nat)
    requires members != [] && limit >= 128
    requires forall i | 0 <= i < |members| :: Below(members[i].0, limit) && Below(members[i].1, limit)
    ensures Below(PrintMembers(members), limit)
    ensures PrintMembers(members) != [] && PrintMembers(members)[|PrintMembers(members)| - 1] == '}'
    decreases |members|
  {
    MemberBelow(members[0].0, members[0].1, limit);
    if |members| > 1 {
      MembersBelow(members[1..], limit);
    }
  }

  /** The printed form ends in a brace, and has no byte out of range that the fields did not have. */
  lemma PrintBelow(server: CustomServer, limit: nat)
    requires limit >= 128
    requires Below(server.key, limit) && Below(server.host, limit)
    requires Below(server.api, limit) && Below(server.relay, limit)
    ensures Below(Print(server), limit)
    ensures Print(server) != [] && Print(server)[|Print(server)| - 1] == '}'
  {
    MembersBelow(MembersOf(server), limit);
  }

  // ---------------------------------------------------------------------------------------------
  // No shorter text reads as the same server
  // ---------------------------------------------------------------------------------------------

  lemma {:induction false} EscapeConcat(a: string, b: string)
    ensures Escape(a + b) == Escape(a) + Escape(b)
    decreases |a|
  {
    if a == [] {
      assert a + b == b;
    } else {
      assert (a + b)[1..] == a[1..] + b;
      EscapeConcat(a[1..], b);
    }
  }

  lemma EscapeOne(c: char)
    ensures Escape([c]) == EscapeChar(c)
  {
    assert [c][1..] == [];
    assert Escape([]) == [];
  }

  lemma {:induction false} EscapeNoShorter(s: string)
    ensures |Escape(s)| >= |s|
    decreases |s|
  {
    if s != [] {
      EscapeNoShorter(s[1..]);
    }
  }

  /** Text that needs no escape. */
  predicate IsUnescaped(s: string) {
    forall i | 0 <= i < |s| :: s[i] as int >= 32 && s[i] != '"' && s[i] != '\\'
  }

  lemma {:induction false} UnescapedPrints(s: string)
    requires IsUnescaped(s)
    ensures Escape(s) == s
    decreases |s|
  {
    if s != [] {
      UnescapedPrints(s[1..]);
      assert s == [s[0]] + s[1..];
    }
  }

  lemma Utf8Prints(code: nat)
    requires Utf8(code).Some?
    ensures |Escape(Utf8(code).value)| <= 6
  {
    var bytes := Utf8(code).value;
    if code < 0x80 {
      EscapeOne(code as char);
    } else {
      UnescapedPrints(bytes);
    }
  }

  /** An escape takes at least as much room as what it stands for takes when printed. */
  lemma EscapeLength(s: string)
    requires ReadEscape(s).Some?
    ensures 1 + |s| - |ReadEscape(s).value.1| >= |Escape(ReadEscape(s).value.0)|
  {
    if s[0] == 'u' {
      Utf8Prints(Hex4(s[1..]).value);
    } else {
      var c := ReadEscape(s).value.0[0];
      assert ReadEscape(s).value.0 == [c];
      EscapeOne(c);
    }
  }

  lemma {:induction false} StringLength(s: string)
    requires ReadString(s).Some?
    ensures |s| - |ReadString(s).value.1| >= |Escape(ReadString(s).value.0)| + 1
    decreases |s|
  {
    if s[0] == '"' {
    } else if s[0] == '\\' {
      var escape := ReadEscape(s[1..]).value;
      EscapeLength(s[1..]);
      StringLength(escape.1);
      EscapeConcat(escape.0, ReadString(escape.1).value.0);
    } else {
      StringLength(s[1..]);
      EscapeConcat([s[0]], ReadString(s[1..]).value.0);
      EscapeOne(s[0]);
    }
  }

  lemma MemberLength(s: string)
    requires ReadMember(s).Some?
    ensures var (name, value, rest) := ReadMember(s).value;
            |s| - |rest| >= |name| + |Escape(value)| + 5
  {
    var name := ReadQuoted(s).value;
    StringLength(Expect(s, '"').value);
    EscapeNoShorter(name.0);
    var after := Expect(name.1, ':').value;
    StringLength(Expect(after, '"').value);
  }

  /** The room a field takes in a printed object. */
  function Weight(fields: Fields, name: string): nat {
    if name in fields then |name| + |Escape(fields[name])| + 6 else 0
  }

  function TotalWeight(fields: Fields): nat {
    Weight(fields, "key") + Weight(fields, "host") + Weight(fields, "api") + Weight(fields, "relay")
  }

  lemma SetFieldWeight(fields: Fields, name: string, value: string)
    requires SetField(fields, name, value).Some?
    ensures TotalWeight(SetField(fields, name, value).value) <= TotalWeight(fields) + |name| + |Escape(value)| + 6
  {
    FieldNamesDiffer();
  }

  lemma {:induction false} MembersLength(s: string, fields: Fields)
    requires ReadMembers(s, fields).Some?
    ensures |s| - |ReadMembers(s, fields).value.1| >= TotalWeight(ReadMembers(s, fields).value.0) - TotalWeight(fields)
    decreases |s|
  {
    var (name, value, rest) := ReadMember(s).value;
    MemberLength(s);
    SetFieldWeight(fields, name, value);
    var more := Expect(rest, ',');
    if more.Some? {
      MembersLength(more.value, SetField(fields, name, value).value);
    }
  }

  /** Every field has something in it. */
  predicate IsFull(server: CustomServer) {
    server.key != [] && server.host != [] && server.api != [] && server.relay != []
  }

  function PrintedLength(server: CustomServer): nat {
    40 + |Escape(server.key)| + |Escape(server.host)| + |Escape(server.api)| + |Escape(server.relay)|
  }

  lemma ServerWeight(fields: Fields)
    requires IsFull(ServerOf(fields))
    ensures 1 + TotalWeight(fields) == PrintedLength(ServerOf(fields))
  {
  }

  lemma MemberPrints(name: string, value: string)
    requires IsUnescaped(name)
    ensures |PrintMember(name, value)| == |name| + |Escape(value)| + 5
  {
    UnescapedPrints(name);
  }

  function MemberWeight(member: (string, string)): nat {
    |member.0| + |Escape(member.1)| + 6
  }

  function MembersWeight(members: seq<(string, string)>): nat {
    if members == [] then 0 else MemberWeight(members[0]) + MembersWeight(members[1..])
  }

  lemma {:induction false} MembersPrint(members: seq<(string, string)>)
    requires members != [] && forall i | 0 <= i < |members| :: IsUnescaped(members[i].0)
    ensures |PrintMembers(members)| == MembersWeight(members)
    decreases |members|
  {
    MemberPrints(members[0].0, members[0].1);
    if |members| > 1 {
      MembersPrint(members[1..]);
    }
  }

  lemma FourMembers(a: (string, string), b: (string, string), c: (string, string), d: (string, string))
    ensures MembersWeight([a, b, c, d]) == MemberWeight(a) + MemberWeight(b) + MemberWeight(c) + MemberWeight(d)
  {
    assert [a, b, c, d][1..] == [b, c, d] && [b, c, d][1..] == [c, d] && [c, d][1..] == [d] && [d][1..] == [];
    assert MembersWeight([c, d]) == MemberWeight(c) + MembersWeight([d]);
    assert MembersWeight([d]) == MemberWeight(d) + MembersWeight([]);
  }

  lemma PrintLength(server: CustomServer)
    ensures |Print(server)| == PrintedLength(server)
  {
    MembersPrint(MembersOf(server));
    FourMembers(("key", server.key), ("host", server.host), ("api", server.api), ("relay", server.relay));
  }

  /** Of the texts that read as a server whose fields are all filled, the printed one is the shortest. */
  lemma PrintIsShortest(server: CustomServer, s: string)
    requires IsFull(server) && Read(s) == Some(server)
    ensures |s| >= |Print(server)|
  {
    PrintLength(server);
    var body := Expect(s, '{').value;
    var empty := Expect(body, '}');
    if empty.None? {
      MembersLength(body, map[]);
      ServerWeight(ReadMembers(body, map[]).value.0);
    }
  }
}
