/** Server settings carried in a file name: the encoder, the parser that must undo it on names that
    browsers and file managers have decorated, and the comma-separated form. */
module ServerName {
  import opened Base64Url
  import opened ServerJson

  /** Checks a signature and returns the signed bytes. The real one rejects anything shorter than a
      signature. */
  type Verify = string -> Option<string>

  const SIGNATURE_BYTES := 64

  ghost predicate RejectsShort(verify: Verify) {
    forall d: string | |d| < SIGNATURE_BYTES :: verify(d).None?
  }

  // ---------------------------------------------------------------------------------------------
  // Text operations
  // ---------------------------------------------------------------------------------------------

  function Reverse(s: string): (r: string)
    ensures |r| == |s| && forall i | 0 <= i < |s| :: r[i] == s[|s| - 1 - i]
  {
    seq(|s|, i requires 0 <= i < |s| => s[|s| - 1 - i])
  }

  /** The lower case of a letter, as far as the parser's patterns go: of the characters outside ASCII
      only the Kelvin sign has an ASCII letter for its lower case. */
  function LowerChar(c: char): char {
    if 'A' <= c <= 'Z' then (c as int + 32) as char else if c as int == 0x212A then 'k' else c
  }

  function Lower(s: string): (r: string)
    ensures |r| == |s| && forall i | 0 <= i < |s| :: r[i] == LowerChar(s[i])
  {
    seq(|s|, i requires 0 <= i < |s| => LowerChar(s[i]))
  }

  predicate OccursAt(pattern: string, s: string, i: nat) {
    i + |pattern| <= |s| && s[i..i + |pattern|] == pattern
  }

  predicate StartsWith(s: string, prefix: string) {
    OccursAt(prefix, s, 0)
  }

  predicate EndsWith(s: string, suffix: string) {
    |suffix| <= |s| && s[|s| - |suffix|..] == suffix
  }

  predicate Contains(s: string, pattern: string) {
    exists i | 0 <= i <= |s| :: OccursAt(pattern, s, i)
  }

  /** Every non-overlapping occurrence, from the left, replaced. */
  function Replace(s: string, pattern: string, by_: string): string
    requires pattern != []
    decreases |s|
  {
    if |s| < |pattern| then s
    else if s[..|pattern|] == pattern then by_ + Replace(s[|pattern|..], pattern, by_)
    else [s[0]] + Replace(s[1..], pattern, by_)
  }

  /** The pieces between non-overlapping occurrences, from the left. */
  function Split(s: string, pattern: string): (r: seq<string>)
    requires pattern != []
    ensures r != []
    decreases |s|
  {
    if |s| < |pattern| then [s]
    else if s[..|pattern|] == pattern then [[]] + Split(s[|pattern|..], pattern)
    else
      var rest := Split(s[1..], pattern);
      [[s[0]] + rest[0]] + rest[1..]
  }

  /** The characters with the Unicode property White_Space. */
  predicate IsWhitespace(c: char) {
    var n := c as int;
    || 9 <= n <= 13 || n == 0x20 || n == 0x85 || n == 0xA0 || n == 0x1680 || 0x2000 <= n <= 0x200A
    || n == 0x2028 || n == 0x2029 || n == 0x202F || n == 0x205F || n == 0x3000
  }

  /** One by one. */
  lemma WhitespaceExact(c: char)
    ensures IsWhitespace(c)
       <==> c as int in {0x9, 0xA, 0xB, 0xC, 0xD, 0x20, 0x85, 0xA0, 0x1680,
                         0x2000, 0x2001, 0x2002, 0x2003, 0x2004, 0x2005, 0x2006, 0x2007, 0x2008, 0x2009, 0x200A,
                         0x2028, 0x2029, 0x202F, 0x205F, 0x3000}
  {
  }

  function TrimStart(s: string): string {
    if s != [] && IsWhitespace(s[0]) then TrimStart(s[1..]) else s
  }

  function TrimEnd(s: string): string {
    if s != [] && IsWhitespace(s[|s| - 1]) then TrimEnd(s[..|s| - 1]) else s
  }

  function Trim(s: string): string {
    TrimEnd(TrimStart(s))
  }

  // ---------------------------------------------------------------------------------------------
  // Encoding and parsing
  // ---------------------------------------------------------------------------------------------

  function GenName(server: CustomServer): string
    requires ServerOfBytes(server)
  {
    PrintBelow(server, 256);
    Reverse(Encode(Print(server)))
  }

  function OrElse<T>(first: Option<T>, second: Option<T>): Option<T> {
    if first.Some? then first else second
  }

  /** One encoded server, possibly signed. */
  function FromConfigString(verify: Verify, s: string): Option<CustomServer> {
    var text := Reverse(s);
    var data := OrElse(Decode(text), DecodePadded(text));
    if data.None? then None
    else if Read(data.value).Some? then Read(data.value)
    else if verify(data.value).Some? then Read(verify(data.value).value)
    else None
  }

  function StripExe(s: string): string {
    if EndsWith(Lower(s), ".exe.exe") then s[..|s| - 8]
    else if EndsWith(Lower(s), ".exe") then s[..|s| - 4]
    else s
  }

  /** The first of the pieces that is a server. */
  function FirstConfig(verify: Verify, pieces: seq<string>): Option<CustomServer> {
    if pieces == [] then None
    else OrElse(FromConfigString(verify, Trim(pieces[0])), FirstConfig(verify, pieces[1..]))
  }

  /** A part as a whole, or else what a counter in parentheses left of it. */
  function FromPart(verify: Verify, part: string): Option<CustomServer> {
    var whole := FromConfigString(verify, Trim(part));
    if whole.Some? then whole
    else if Contains(part, "(") then FirstConfig(verify, Split(part, "("))
    else None
  }

  function FirstPart(verify: Verify, parts: seq<string>): Option<CustomServer> {
    if parts == [] then None
    else OrElse(FromPart(verify, parts[0]), FirstPart(verify, parts[1..]))
  }

  function Separated(s: string): string {
    Replace(Replace(Replace(s, "-licensed---", "--"), "-licensed--", "--"), "-licensed-", "--")
  }

  /** What the last token that starts with `prefix`, in any case, says after it. */
  function LastWith(tokens: seq<string>, prefix: string): string {
    if tokens == [] then []
    else
      var last := tokens[|tokens| - 1];
      if StartsWith(Lower(last), prefix) then last[|prefix|..]
      else LastWith(tokens[..|tokens| - 1], prefix)
  }

  /** Where `pattern` first occurs. */
  function Find(s: string, pattern: string): (i: nat)
    requires Contains(s, pattern)
    ensures OccursAt(pattern, s, i) && forall k: nat | k < i :: !OccursAt(pattern, s, k)
  {
    FindFrom(s, pattern, 0)
  }

  function FindFrom(s: string, pattern: string, start: nat): (i: nat)
    requires exists k: nat :: start <= k && OccursAt(pattern, s, k)
    ensures start <= i && OccursAt(pattern, s, i)
    ensures forall k: nat | start <= k < i :: !OccursAt(pattern, s, k)
    decreases |s| - start
  {
    if OccursAt(pattern, s, start) then start else FindFrom(s, pattern, start + 1)
  }

  function FromTokens(tokens: seq<string>): CustomServer {
    CustomServer(LastWith(tokens, "key="), LastWith(tokens, "host="),
                 LastWith(tokens, "api="), LastWith(tokens, "relay="))
  }

  function FromString(verify: Verify, s: string): Option<CustomServer> {
    var s := StripExe(s);
    if Contains(Lower(s), "host=") then
      Some(FromTokens(Split(s[Find(Lower(s), "host=")..], ",")))
    else
      FirstPart(verify, Split(Separated(s), "--"))
  }

  // ---------------------------------------------------------------------------------------------
  // The parser's loops
  // ---------------------------------------------------------------------------------------------

  /** The token loop of the comma-separated form. */
  method ReadTokens(tokens: seq<string>) returns (server: CustomServer)
    ensures server == FromTokens(tokens)
  {
    var host, key, api, relay: string := [], [], [], [];
    for i := 0 to |tokens|
      invariant host == LastWith(tokens[..i], "host=") && key == LastWith(tokens[..i], "key=")
      invariant api == LastWith(tokens[..i], "api=") && relay == LastWith(tokens[..i], "relay=")
    {
      var token := tokens[i];
      var lower := Lower(token);
      assert tokens[..i + 1][..i] == tokens[..i];
      if StartsWith(lower, "host=") {
        host := token[5..];
      }
      if StartsWith(lower, "key=") {
        key := token[4..];
      }
      if StartsWith(lower, "api=") {
        api := token[4..];
      }
      if StartsWith(lower, "relay=") {
        relay := token[6..];
      }
    }
    assert tokens[..|tokens|] == tokens;
    server := CustomServer(key, host, api, relay);
  }

  /** The nested loops over parts and pieces, with their early returns. */
  method ReadParts(verify: Verify, parts: seq<string>) returns (r: Option<CustomServer>)
    ensures r == FirstPart(verify, parts)
  {
    for i := 0 to |parts|
      invariant FirstPart(verify, parts) == FirstPart(verify, parts[i..])
    {
      var part := parts[i];
      assert parts[i..][1..] == parts[i + 1..];
      r := FromConfigString(verify, Trim(part));
      if r.Some? {
        return;
      } else if Contains(part, "(") {
        var pieces := Split(part, "(");
        for k := 0 to |pieces|
          invariant FirstConfig(verify, pieces) == FirstConfig(verify, pieces[k..])
        {
          assert pieces[k..][1..] == pieces[k + 1..];
          r := FromConfigString(verify, Trim(pieces[k]));
          if r.Some? {
            return;
          }
        }
      }
    }
    r := None;
  }

  method ParseFileName(verify: Verify, name: string) returns (r: Option<CustomServer>)
    ensures r == FromString(verify, name)
  {
    var s := StripExe(name);
    if Contains(Lower(s), "host=") {
      var server := ReadTokens(Split(s[Find(Lower(s), "host=")..], ","));
      return Some(server);
    }
    r := ReadParts(verify, Split(Separated(s), "--"));
  }
}
