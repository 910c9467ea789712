/** A generated name, placed after a separator and decorated by a browser or a file manager, parses
    back to the server it was generated from. */
module NameRoundTrip {
  import opened Base64Url
  import opened ServerJson
  import opened ServerName

  // ---------------------------------------------------------------------------------------------
  // Splitting and replacing around one occurrence
  // ---------------------------------------------------------------------------------------------

  lemma TailOccurs(pattern: string, s: string, i: nat)
    requires s != []
    ensures OccursAt(pattern, s[1..], i) <==> OccursAt(pattern, s, i + 1)
  {
    if i + 1 + |pattern| <= |s| {
      assert s[1..][i..i + |pattern|] == s[i + 1..i + 1 + |pattern|];
    }
  }

  lemma OccursChar(pattern: string, s: string, i: nat, k: nat)
    requires OccursAt(pattern, s, i) && k < |pattern|
    ensures s[i + k] == pattern[k]
  {
    assert s[i..i + |pattern|][k] == s[i + k];
  }

  predicate Without(s: string, c: char) {
    forall i | 0 <= i < |s| :: s[i] != c
  }

  /** `pattern` does not begin within the first `n` characters of `s`. */
  ghost predicate NotBefore(pattern: string, s: string, n: nat) {
    forall i: nat | i < n :: !OccursAt(pattern, s, i)
  }

  lemma NotBeforeTail(pattern: string, s: string, n: nat)
    requires s != [] && n > 0 && NotBefore(pattern, s, n)
    ensures NotBefore(pattern, s[1..], n - 1)
  {
    forall i: nat | i < n - 1 ensures !OccursAt(pattern, s[1..], i) {
      TailOccurs(pattern, s, i);
    }
  }

  lemma ReplaceStep(s: string, pattern: string, by_: string)
    requires pattern != [] && s != [] && !OccursAt(pattern, s, 0)
    ensures Replace(s, pattern, by_) == [s[0]] + Replace(s[1..], pattern, by_)
  {
    if |s| < |pattern| {
      assert s == [s[0]] + s[1..];
    }
  }

  /** Replacing leaves a beginning alone in which the pattern does not begin. */
  lemma {:induction false} ReplaceAfter(a: string, b: string, pattern: string, by_: string)
    requires pattern != [] && NotBefore(pattern, a + b, |a|)
    ensures Replace(a + b, pattern, by_) == a + Replace(b, pattern, by_)
    decreases |a|
  {
    if a == [] {
      assert a + b == b;
    } else {
      var s, rest := a + b, Replace(b, pattern, by_);
      assert s[1..] == a[1..] + b && s[0] == a[0];
      NotBeforeTail(pattern, s, |a|);
      ReplaceAfter(a[1..], b, pattern, by_);
      ReplaceStep(s, pattern, by_);
      assert [a[0]] + (a[1..] + rest) == a + rest;
    }
  }

  lemma SplitStep(s: string, pattern: string)
    requires pattern != [] && s != [] && !OccursAt(pattern, s, 0)
    ensures Split(s, pattern) == [[s[0]] + Split(s[1..], pattern)[0]] + Split(s[1..], pattern)[1..]
  {
    if |s| < |pattern| {
      assert s == [s[0]] + s[1..];
    }
  }

  /** Splitting leaves such a beginning in the first piece. */
  lemma {:induction false} SplitAfter(a: string, b: string, pattern: string)
    requires pattern != [] && NotBefore(pattern, a + b, |a|)
    ensures Split(a + b, pattern) == [a + Split(b, pattern)[0]] + Split(b, pattern)[1..]
    decreases |a|
  {
    var pieces := Split(b, pattern);
    if a == [] {
      assert a + b == b && a + pieces[0] == pieces[0];
    } else {
      var s := a + b;
      assert s[1..] == a[1..] + b && s[0] == a[0];
      NotBeforeTail(pattern, s, |a|);
      SplitAfter(a[1..], b, pattern);
      SplitStep(s, pattern);
      assert [a[0]] + (a[1..] + pieces[0]) == a + pieces[0];
    }
  }

  /** No occurrence of `pattern` begins in `a` and ends in `b`. */
  ghost predicate NoStraddle(pattern: string, a: string, b: string) {
    forall i: nat | i < |a| < i + |pattern| :: !OccursAt(pattern, a + b, i)
  }

  lemma NoStraddleTail(pattern: string, a: string, n: nat, b: string)
    requires NoStraddle(pattern, a, b) && n <= |a|
    ensures NoStraddle(pattern, a[n..], b)
  {
    assert a + b == a[..n] + (a[n..] + b);
    forall i: nat | i < |a[n..]| < i + |pattern| ensures !OccursAt(pattern, a[n..] + b, i) {
      AfterOccurs(pattern, a[..n], a[n..] + b, i);
    }
  }

  lemma AfterOccurs(pattern: string, a: string, b: string, i: nat)
    ensures OccursAt(pattern, a + b, |a| + i) <==> OccursAt(pattern, b, i)
  {
    if i + |pattern| <= |b| {
      assert (a + b)[|a| + i..|a| + i + |pattern|] == b[i..i + |pattern|];
    }
  }

  lemma OccursInside(pattern: string, a: string, b: string, i: nat)
    requires i + |pattern| <= |a|
    ensures OccursAt(pattern, a + b, i) <==> OccursAt(pattern, a, i)
  {
    assert (a + b)[i..i + |pattern|] == a[i..i + |pattern|];
  }

  lemma Regroup(a: string, b: string, c: string)
    ensures a + b + c == a + (b + c)
  {
  }

  lemma ReplaceHere(s: string, pattern: string, by_: string)
    requires pattern != [] && OccursAt(pattern, s, 0)
    ensures Replace(s, pattern, by_) == by_ + Replace(s[|pattern|..], pattern, by_)
  {
    assert s[0..|pattern|] == s[..|pattern|];
  }

  /** Replacing in two texts joined is replacing in each, unless an occurrence straddles them. */
  lemma {:induction false} ReplaceConcat(a: string, b: string, pattern: string, by_: string)
    requires pattern != [] && NoStraddle(pattern, a, b)
    ensures Replace(a + b, pattern, by_) == Replace(a, pattern, by_) + Replace(b, pattern, by_)
    decreases |a|
  {
    var n := |pattern|;
    if a == [] {
      assert a + b == b;
    } else if OccursAt(pattern, a + b, 0) {
      assert n <= |a|;
      OccursInside(pattern, a, b, 0);
      assert (a + b)[n..] == a[n..] + b;
      NoStraddleTail(pattern, a, n, b);
      ReplaceHere(a, pattern, by_);
      ReplaceHere(a + b, pattern, by_);
      ReplaceConcat(a[n..], b, pattern, by_);
      Regroup(by_, Replace(a[n..], pattern, by_), Replace(b, pattern, by_));
    } else {
      assert (a + b)[1..] == a[1..] + b;
      NoStraddleTail(pattern, a, 1, b);
      if n <= |a| {
        OccursInside(pattern, a, b, 0);
      }
      ReplaceStep(a, pattern, by_);
      ReplaceStep(a + b, pattern, by_);
      ReplaceConcat(a[1..], b, pattern, by_);
      Regroup([a[0]], Replace(a[1..], pattern, by_), Replace(b, pattern, by_));
    }
  }

  lemma SplitHere(s: string, pattern: string)
    requires pattern != [] && OccursAt(pattern, s, 0)
    ensures Split(s, pattern) == [[]] + Split(s[|pattern|..], pattern)
  {
    assert s[0..|pattern|] == s[..|pattern|];
  }

  lemma PiecesJoin(c: char, p: seq<string>, q: seq<string>)
    requires p != []
    ensures [[c] + (p + q)[0]] + (p + q)[1..] == ([[c] + p[0]] + p[1..]) + q
    ensures [[]] + (p + q) == ([[]] + p) + q
  {
  }

  /** The pieces of two texts joined by the separator are those of the one and those of the other. */
  lemma {:induction false} SplitConcat(a: string, b: string, pattern: string)
    requires pattern != [] && NoStraddle(pattern, a, pattern + b)
    ensures Split(a + (pattern + b), pattern) == Split(a, pattern) + Split(b, pattern)
    decreases |a|
  {
    var n, s := |pattern|, a + (pattern + b);
    if a == [] {
      assert s == pattern + b && s[..n] == pattern && s[n..] == b;
      SplitHere(s, pattern);
      assert Split(a, pattern) == [[]];
    } else if OccursAt(pattern, s, 0) {
      assert n <= |a|;
      OccursInside(pattern, a, pattern + b, 0);
      assert s[n..] == a[n..] + (pattern + b);
      NoStraddleTail(pattern, a, n, pattern + b);
      SplitHere(a, pattern);
      SplitHere(s, pattern);
      SplitConcat(a[n..], b, pattern);
      PiecesJoin(a[0], Split(a[n..], pattern), Split(b, pattern));
    } else {
      assert s[1..] == a[1..] + (pattern + b) && s[0] == a[0];
      NoStraddleTail(pattern, a, 1, pattern + b);
      if n <= |a| {
        OccursInside(pattern, a, pattern + b, 0);
      }
      SplitStep(a, pattern);
      SplitStep(s, pattern);
      SplitConcat(a[1..], b, pattern);
      PiecesJoin(a[0], Split(a[1..], pattern), Split(b, pattern));
    }
  }

  // ---------------------------------------------------------------------------------------------
  // Trimming
  // ---------------------------------------------------------------------------------------------

  predicate AllSpaces(s: string) {
    forall i | 0 <= i < |s| :: IsWhitespace(s[i])
  }

  lemma {:induction false} TrimEndSpaces(s: string, spaces: string)
    requires AllSpaces(spaces) && (s != [] ==> !IsWhitespace(s[|s| - 1]))
    ensures TrimEnd(s + spaces) == s
    decreases |spaces|
  {
    if spaces == [] {
      assert s + spaces == s;
    } else {
      var t := s + spaces;
      assert t[..|t| - 1] == s + spaces[..|spaces| - 1];
      TrimEndSpaces(s, spaces[..|spaces| - 1]);
    }
  }

  /** Spaces after a text that neither begins nor ends with one are trimmed, and nothing else. */
  lemma TrimAfter(s: string, spaces: string)
    requires AllSpaces(spaces) && s != [] && !IsWhitespace(s[0]) && !IsWhitespace(s[|s| - 1])
    ensures Trim(s + spaces) == s
  {
    assert (s + spaces)[0] == s[0];
    TrimEndSpaces(s, spaces);
  }

  lemma {:induction false} TrimStartExact(s: string) returns (front: string)
    ensures s == front + TrimStart(s) && AllSpaces(front)
    ensures TrimStart(s) != [] ==> !IsWhitespace(TrimStart(s)[0])
    decreases |s|
  {
    front := [];
    if s != [] && IsWhitespace(s[0]) {
      var rest := TrimStartExact(s[1..]);
      front := [s[0]] + rest;
      assert s == [s[0]] + s[1..];
    }
  }

  lemma {:induction false} TrimEndExact(s: string) returns (back: string)
    ensures s == TrimEnd(s) + back && AllSpaces(back)
    ensures TrimEnd(s) != [] ==> !IsWhitespace(TrimEnd(s)[|TrimEnd(s)| - 1]) && TrimEnd(s)[0] == s[0]
    decreases |s|
  {
    back := [];
    if s != [] && IsWhitespace(s[|s| - 1]) {
      var rest := TrimEndExact(s[..|s| - 1]);
      back := rest + [s[|s| - 1]];
      assert s == s[..|s| - 1] + [s[|s| - 1]];
    }
  }

  /** Trimming takes spaces, and nothing but spaces, off both ends. */
  lemma TrimExact(s: string) returns (front: string, back: string)
    ensures s == front + Trim(s) + back && AllSpaces(front) && AllSpaces(back)
    ensures Trim(s) != [] ==> !IsWhitespace(Trim(s)[0]) && !IsWhitespace(Trim(s)[|Trim(s)| - 1])
  {
    front := TrimStartExact(s);
    back := TrimEndExact(TrimStart(s));
    assert s == front + (Trim(s) + back);
  }

  lemma {:induction false} TrimStartKeeps(s: string, c: char)
    requires c in s && !IsWhitespace(c)
    ensures c in TrimStart(s)
    decreases |s|
  {
    if IsWhitespace(s[0]) {
      assert s == [s[0]] + s[1..];
      TrimStartKeeps(s[1..], c);
    }
  }

  lemma {:induction false} TrimEndKeeps(s: string, c: char)
    requires c in s && !IsWhitespace(c)
    ensures c in TrimEnd(s)
    decreases |s|
  {
    if IsWhitespace(s[|s| - 1]) {
      assert s == s[..|s| - 1] + [s[|s| - 1]];
      TrimEndKeeps(s[..|s| - 1], c);
    }
  }

  // ---------------------------------------------------------------------------------------------
  // The generated name
  // ---------------------------------------------------------------------------------------------

  lemma ReverseReverse(s: string)
    ensures Reverse(Reverse(s)) == s
  {
  }

  /** On its own, a generated name parses to its server. */
  lemma NameParses(verify: Verify, server: CustomServer)
    requires ServerOfBytes(server)
    ensures FromConfigString(verify, GenName(server)) == Some(server)
  {
    PrintBelow(server, 256);
    ReverseReverse(Encode(Print(server)));
    DecodeEncode(Print(server));
    PrintReads(server);
  }

  /** Any bytes, encoded and reversed, are read as a server themselves, or else through the signature
      check, if it takes them: then what was signed is read. */
  lemma EncodedParses(verify: Verify, data: string)
    requires IsBytes(data)
    ensures FromConfigString(verify, Reverse(Encode(data)))
         == if Read(data).Some? then Read(data)
            else if verify(data).Some? then Read(verify(data).value) else None
  {
    ReverseReverse(Encode(data));
    DecodeEncode(data);
  }

  lemma ReversedEncodingShape(b: string)
    requires IsBytes(b) && b != [] && b[0] == '{' && b[|b| - 1] == '}'
    ensures AllInAlphabet(Reverse(Encode(b))) && Reverse(Encode(b)) != []
    ensures Reverse(Encode(b))[0] in {'Q', '0', '9'} && Reverse(Encode(b))[|Reverse(Encode(b))| - 1] == 'e'
  {
    EncodeInAlphabet(b);
    FirstChar(b);
    LastChar(b);
  }

  /** A generated name is base64 text that begins with `Q`, `0` or `9` and ends with `e`. */
  lemma NameShape(server: CustomServer)
    requires ServerOfBytes(server)
    ensures AllInAlphabet(GenName(server)) && GenName(server) != []
    ensures GenName(server)[0] in {'Q', '0', '9'} && GenName(server)[|GenName(server)| - 1] == 'e'
  {
    PrintBelow(server, 256);
    ReversedEncodingShape(Print(server));
  }

  /** Any two dashes are a multiple of four apart. */
  ghost predicate DashesApart(s: string) {
    forall i, j | 0 <= i < j < |s| && s[i] == '-' && s[j] == '-' :: (j - i) % 4 == 0
  }

  lemma FourApart(x: int, y: int)
    requires x % 4 == 3 && y % 4 == 3
    ensures (x - y) % 4 == 0
  {
    assert x - y == 4 * (x / 4 - y / 4);
  }

  /** Every dash stands at an index that is 3 modulo 4. */
  ghost predicate DashesInPlace(s: string) {
    forall i | 0 <= i < |s| && s[i] == '-' :: i % 4 == 3
  }

  lemma ReverseDashes(text: string)
    requires DashesInPlace(text)
    ensures DashesApart(Reverse(text))
  {
    var name, last := Reverse(text), |text| - 1;
    forall i, j | 0 <= i < j < |name| && name[i] == '-' && name[j] == '-' ensures (j - i) % 4 == 0 {
      assert text[last - i] == '-' && text[last - j] == '-';
      FourApart(last - i, last - j);
    }
  }

  lemma ReversedEncodingDashes(b: string)
    requires IsAscii(b)
    ensures DashesApart(Reverse(Encode(b)))
  {
    forall i | 0 <= i < |Encode(b)| && Encode(b)[i] == '-' ensures i % 4 == 3 {
      DashPositions(b, i);
    }
    ReverseDashes(Encode(b));
  }

  /** In the name of a server with ASCII fields, dashes are a multiple of four apart. */
  lemma NameDashes(server: CustomServer)
    requires ServerOfAscii(server)
    ensures ServerOfBytes(server) && DashesApart(GenName(server))
  {
    PrintBelow(server, 128);
    ReversedEncodingDashes(Print(server));
  }

  /** Text in which neither separator occurs. */
  ghost predicate Clean(s: string) {
    forall i: nat :: !OccursAt("--", s, i) && !OccursAt("-licensed-", s, i)
  }

  lemma SeparatorChars(s: string, i: nat)
    ensures OccursAt("--", s, i) ==> s[i] == '-' && s[i + 1] == '-'
    ensures OccursAt("-licensed-", s, i) ==> s[i] == '-' && s[i + 1] == 'l' && s[i + 9] == '-'
  {
    if OccursAt("--", s, i) {
      assert s[i..i + 2][0] == '-' && s[i..i + 2][1] == '-';
    }
    if OccursAt("-licensed-", s, i) {
      assert s[i..i + 10][0] == '-' && s[i..i + 10][1] == 'l' && s[i..i + 10][9] == '-';
    }
  }

  /** Dashes that far apart leave no room for `--` nor for `-licensed-`. */
  lemma DashesApartIsClean(s: string)
    requires DashesApart(s)
    ensures Clean(s)
  {
    forall i: nat ensures !OccursAt("--", s, i) && !OccursAt("-licensed-", s, i) {
      SeparatorChars(s, i);
    }
  }


  // ---------------------------------------------------------------------------------------------
  // Finding the name in the file name
  // ---------------------------------------------------------------------------------------------

  predicate IsLicensed(sep: string) {
    sep == "-licensed-" || sep == "-licensed--" || sep == "-licensed---"
  }

  /** A separator the parser knows, as the file name carries it. */
  predicate IsSeparator(sep: string) {
    sep == "--" || IsLicensed(sep)
  }

  /** What a separator is followed by: clean text that neither extends the separator nor, at its
      end, begins another. */
  ghost predicate Follows(tail: string) {
    Clean(tail) && tail != [] && tail[0] != '-' && tail[0] != 'l'
    && tail[|tail| - 1] != 'd' && tail[|tail| - 1] != '-'
  }

  /** What may come after that: nothing, or anything behind `--`. */
  predicate IsRest(rest: string) {
    rest == [] || StartsWith(rest, "--")
  }

  lemma RestChars(rest: string)
    ensures IsRest(rest) <==> rest == [] || (|rest| >= 2 && rest[0] == '-' && rest[1] == '-')
  {
    if |rest| >= 2 {
      assert rest[0..2] == [rest[0], rest[1]];
    }
  }

  lemma LicensedChars(p: string)
    requires IsLicensed(p)
    ensures 10 <= |p| <= 12 && p[0] == '-' && p[1] == 'l' && p[8] == 'd'
    ensures forall k | 0 < k < |p| :: p[k] == '-' <==> k >= 9
    ensures p[..10] == "-licensed-"
  {
  }

  /** Text that cannot end in part of a separator: it ends neither in a dash nor in `-licensed`. */
  predicate EndsPlain(stem: string) {
    stem == [] || (stem[|stem| - 1] != '-' && !EndsWith(stem, "-licensed"))
  }

  /** Text without a dash is passed over. */
  lemma NotInPlain(p: string, stem: string, more: string)
    requires p != [] && p[0] == '-' && Without(stem, '-')
    ensures NotBefore(p, stem + more, |stem|)
  {
    forall i: nat | i < |stem| ensures !OccursAt(p, stem + more, i) {
      assert (stem + more)[i] != p[0];
    }
  }

  lemma SeparatorDashes(sep: string, k: nat)
    requires IsSeparator(sep) && k < |sep| && sep[k] == '-'
    ensures k + 1 < |sep| && sep[k + 1] != '-' ==> k == 0 && IsLicensed(sep)
  {
  }

  /** A longer licence separator does not begin in a separator. */
  lemma NotInSeparator(p: string, sep: string, u: string)
    requires IsLicensed(p) && IsSeparator(sep) && |sep| < |p|
    requires u != [] && u[0] != '-' && u[0] != 'l'
    ensures NotBefore(p, sep + u, |sep|)
  {
    var s := sep + u;
    LicensedChars(p);
    forall i: nat | i < |sep| ensures !OccursAt(p, s, i) {
      if OccursAt(p, s, i) {
        OccursChar(p, s, i, 0);
        OccursChar(p, s, i, 1);
        SeparatorDashes(sep, i);
        OccursChar(p, s, i, |sep|);
      }
    }
  }

  lemma LicensedPrefix(p: string, s: string, i: nat)
    requires IsLicensed(p) && OccursAt(p, s, i)
    ensures OccursAt("-licensed-", s, i)
  {
    LicensedChars(p);
    assert s[i..i + 10] == s[i..i + |p|][..10];
  }

  /** Neither separator begins in the text that follows one, whatever comes after it. */
  lemma NotInTail(p: string, tail: string, rest: string)
    requires IsLicensed(p) && Follows(tail) && IsRest(rest)
    ensures NotBefore(p, tail + rest, |tail|)
  {
    LicensedChars(p);
    RestChars(rest);
    forall i: nat | i < |tail| ensures !OccursAt(p, tail + rest, i) {
      if OccursAt(p, tail + rest, i) {
        if i + 10 <= |tail| {
          LicensedPrefix(p, tail + rest, i);
          OccursInside("-licensed-", tail, rest, i);
        } else {
          OccursChar(p, tail + rest, i, 8);
          OccursChar(p, tail + rest, i, |tail| - i);
        }
      }
    }
  }

  lemma DashesNotInTail(tail: string, rest: string)
    requires Follows(tail) && IsRest(rest)
    ensures NotBefore("--", tail + rest, |tail|)
  {
    forall i: nat | i < |tail| ensures !OccursAt("--", tail + rest, i) {
      if i + 2 <= |tail| {
        OccursInside("--", tail, rest, i);
      } else if OccursAt("--", tail + rest, i) {
        OccursChar("--", tail + rest, i, 0);
      }
    }
  }

  /** Replacing keeps a beginning dash. */
  lemma DashKept(s: string, p: string)
    requires IsLicensed(p) && s != [] && s[0] == '-'
    ensures Replace(s, p, "--") != [] && Replace(s, p, "--")[0] == '-'
  {
    if !OccursAt(p, s, 0) {
      ReplaceStep(s, p, "--");
    }
  }

  lemma RestKept(rest: string, p: string)
    requires IsLicensed(p) && IsRest(rest)
    ensures IsRest(Replace(rest, p, "--"))
  {
    RestChars(rest);
    if rest == [] {
      LicensedChars(p);
    } else {
      LicensedChars(p);
      if OccursAt(p, rest, 0) {
        OccursChar(p, rest, 0, 1);
      }
      ReplaceStep(rest, p, "--");
      DashKept(rest[1..], p);
      RestChars(Replace(rest, p, "--"));
    }
  }

  lemma SeparatorPass(p: string, sep: string, u: string)
    requires IsLicensed(p) && IsSeparator(sep) && (sep == p || |sep| < |p|)
    requires u != [] && u[0] != '-' && u[0] != 'l'
    ensures Replace(sep + u, p, "--") == (if sep == p then "--" else sep) + Replace(u, p, "--")
  {
    if sep == p {
      assert (p + u)[..|p|] == p && (p + u)[|p|..] == u;
    } else {
      NotInSeparator(p, sep, u);
      ReplaceAfter(sep, u, p, "--");
    }
  }

  lemma SplitRest(rest: string)
    requires IsRest(rest)
    ensures Split(rest, "--")[0] == []
  {
  }

  ghost predicate HasDashes(s: string) {
    exists i: nat :: OccursAt("--", s, i)
  }

  lemma DashesInFront(r: string)
    ensures HasDashes("--" + r)
  {
    assert ("--" + r)[0..2] == "--";
    assert OccursAt("--", "--" + r, 0);
  }

  lemma DashesLater(c: char, r: string)
    requires HasDashes(r)
    ensures HasDashes([c] + r)
  {
    var i: nat :| OccursAt("--", r, i);
    assert ([c] + r)[1..] == r;
    TailOccurs("--", [c] + r, i);
  }

  /** A replacement either finds nothing to replace, or leaves `--`; and it never lengthens. */
  lemma {:induction false} ReplaceLeavesDashes(s: string, p: string)
    requires IsLicensed(p)
    ensures |Replace(s, p, "--")| <= |s|
    ensures HasDashes(Replace(s, p, "--")) || (Replace(s, p, "--") == s && NotBefore(p, s, |s|))
    decreases |s|
  {
    LicensedChars(p);
    if |s| < |p| {
    } else if s[..|p|] == p {
      ReplaceLeavesDashes(s[|p|..], p);
      DashesInFront(Replace(s[|p|..], p, "--"));
    } else {
      var rest := s[1..];
      ReplaceLeavesDashes(rest, p);
      if HasDashes(Replace(rest, p, "--")) {
        DashesLater(s[0], Replace(rest, p, "--"));
      } else {
        assert [s[0]] + rest == s;
        forall i: nat | i < |s| ensures !OccursAt(p, s, i) {
          if i > 0 {
            TailOccurs(p, s, i - 1);
          }
        }
      }
    }
  }

  /** Whether `s` ends in `licensed` after a dash, told by its characters. */
  lemma LicensedEnd(s: string)
    ensures EndsWith(s, "-licensed") <==> |s| >= 9 && s[|s| - 9] == '-' && s[|s| - 8..] == "licensed"
  {
    if |s| >= 9 {
      assert s[|s| - 9..] == [s[|s| - 9]] + s[|s| - 8..];
      assert "-licensed" == ['-'] + "licensed";
    }
  }

  lemma PlainTail(s: string, n: nat)
    requires EndsPlain(s) && n <= |s|
    ensures EndsPlain(s[n..])
  {
    if n < |s| {
      var t := s[n..];
      assert t[|t| - 1] == s[|s| - 1];
      if |t| >= 9 {
        assert t[|t| - 9..] == s[|s| - 9..];
      }
    }
  }

  /** One or two characters in front leave a plain ending plain, unless they make `-licensed`. */
  lemma PlainLonger(front: string, r: string)
    requires EndsPlain(r) && r != [] && (|front| == 1 || front == "--")
    requires r == "licensed" ==> front[|front| - 1] != '-'
    ensures EndsPlain(front + r)
  {
    var t := front + r;
    assert t[|t| - 1] == r[|r| - 1];
    LicensedEnd(t);
    if |r| >= 9 {
      assert t[|t| - 9..] == r[|r| - 9..];
    } else if |r| == 8 {
      assert t[|t| - 8..] == r && t[|t| - 9] == front[|front| - 1];
    } else if |t| >= 9 {
      assert t[|t| - 8..][0] == '-';
    }
  }

  lemma NoDashesInLicensed(r: string)
    requires r == "licensed"
    ensures !HasDashes(r)
  {
    forall i: nat ensures !OccursAt("--", r, i) {
      SeparatorChars(r, i);
    }
  }

  lemma PlainHere(a: string, p: string, r: string)
    requires IsLicensed(p) && EndsPlain(a) && OccursAt(p, a, 0) && r == Replace(a[|p|..], p, "--") && EndsPlain(r)
    requires r != []
    ensures EndsPlain("--" + r)
  {
    if r == "licensed" {
      NoDashesInLicensed(r);
      ReplaceLeavesDashes(a[|p|..], p);
      LicensedChars(p);
      OccursChar(p, a, 0, |p| - 1);
      LicensedEnd(a);
    } else {
      PlainLonger("--", r);
    }
  }

  lemma PlainLater(a: string, p: string, r: string)
    requires IsLicensed(p) && EndsPlain(a) && a != [] && r == Replace(a[1..], p, "--") && EndsPlain(r) && r != []
    ensures EndsPlain([a[0]] + r)
  {
    if r == "licensed" {
      NoDashesInLicensed(r);
      ReplaceLeavesDashes(a[1..], p);
      assert a == [a[0]] + r;
    } else {
      PlainLonger([a[0]], r);
    }
  }

  /** A plain ending stays plain. */
  lemma {:induction false} EndKept(a: string, p: string)
    requires IsLicensed(p) && EndsPlain(a)
    ensures EndsPlain(Replace(a, p, "--")) && (a != [] ==> Replace(a, p, "--") != [])
    decreases |a|
  {
    LicensedChars(p);
    if a != [] {
      if OccursAt(p, a, 0) {
        var rest := a[|p|..];
        ReplaceHere(a, p, "--");
        if rest == [] {
          OccursChar(p, a, 0, |p| - 1);
        } else {
          PlainTail(a, |p|);
          EndKept(rest, p);
          PlainHere(a, p, Replace(rest, p, "--"));
        }
      } else {
        ReplaceStep(a, p, "--");
        PlainTail(a, 1);
        EndKept(a[1..], p);
        if a[1..] != [] {
          PlainLater(a, p, Replace(a[1..], p, "--"));
        }
      }
    }
  }

  lemma NoStraddleDashes(a: string, b: string)
    requires EndsPlain(a)
    ensures NoStraddle("--", a, b)
  {
    forall i: nat | i < |a| < i + 2 ensures !OccursAt("--", a + b, i) {
      SeparatorChars(a + b, i);
    }
  }

  lemma NoStraddleLicensed(p: string, a: string, b: string)
    requires IsLicensed(p) && EndsPlain(a) && b != [] && b[0] == '-'
    ensures NoStraddle(p, a, b)
  {
    LicensedChars(p);
    forall i: nat | i < |a| < i + |p| ensures !OccursAt(p, a + b, i) {
      if OccursAt(p, a + b, i) {
        CrossingEnd(p, a, b, i);
      }
    }
  }

  /** An occurrence that goes on into a dash has `-licensed`, or more, before that dash. */
  lemma CrossingEnd(p: string, a: string, b: string, i: nat)
    requires IsLicensed(p) && b != [] && b[0] == '-' && i < |a| < i + |p| && OccursAt(p, a + b, i)
    ensures !EndsPlain(a)
  {
    LicensedChars(p);
    var k := |a| - i;
    OccursChar(p, a + b, i, k);
    if k == 9 {
      assert (a + b)[i..i + |p|][..9] == a[i..];
      assert p[..10][..9] == p[..9];
    } else {
      OccursChar(p, a + b, i, k - 1);
    }
  }

  lemma FirstKept(u: string, p: string)
    requires IsLicensed(p) && u != [] && u[0] != '-'
    ensures Replace(u, p, "--") != [] && Replace(u, p, "--")[0] == u[0]
  {
    LicensedChars(p);
    if OccursAt(p, u, 0) {
      OccursChar(p, u, 0, 0);
    }
    ReplaceStep(u, p, "--");
  }

  /** One replacement turns the separator into `--` if it is the one replaced, and otherwise goes on
      separately before and after it. */
  lemma PassAround(p: string, stem: string, sep: string, u: string)
    requires IsLicensed(p) && EndsPlain(stem) && IsSeparator(sep) && (sep == p || |sep| < |p|)
    requires u != [] && u[0] != '-' && u[0] != 'l'
    ensures Replace(stem + (sep + u), p, "--")
         == Replace(stem, p, "--") + ((if sep == p then "--" else sep) + Replace(u, p, "--"))
    ensures EndsPlain(Replace(stem, p, "--"))
    ensures Replace(u, p, "--") != [] && Replace(u, p, "--")[0] == u[0]
  {
    LicensedChars(p);
    NoStraddleLicensed(p, stem, sep + u);
    ReplaceConcat(stem, sep + u, p, "--");
    SeparatorPass(p, sep, u);
    EndKept(stem, p);
    FirstKept(u, p);
  }

  /** The three replacements leave `--` where the separator was. */
  lemma SeparatedAround(stem: string, sep: string, u: string)
    requires EndsPlain(stem) && IsSeparator(sep) && u != [] && u[0] != '-' && u[0] != 'l'
    ensures Separated(stem + (sep + u)) == Separated(stem) + ("--" + Separated(u))
    ensures EndsPlain(Separated(stem))
  {
    var stem1, u1 := Replace(stem, "-licensed---", "--"), Replace(u, "-licensed---", "--");
    var stem2, u2 := Replace(stem1, "-licensed--", "--"), Replace(u1, "-licensed--", "--");
    var sep1 := if sep == "-licensed---" then "--" else sep;
    var sep2 := if sep1 == "-licensed--" then "--" else sep1;
    PassAround("-licensed---", stem, sep, u);
    PassAround("-licensed--", stem1, sep1, u1);
    PassAround("-licensed-", stem2, sep2, u2);
  }

  /** So the parts are those before the separator and those after it. */
  lemma PartsAround(stem: string, sep: string, u: string)
    requires EndsPlain(stem) && IsSeparator(sep) && u != [] && u[0] != '-' && u[0] != 'l'
    ensures Split(Separated(stem + (sep + u)), "--")
         == Split(Separated(stem), "--") + Split(Separated(u), "--")
  {
    SeparatedAround(stem, sep, u);
    NoStraddleDashes(Separated(stem), "--" + Separated(u));
    SplitConcat(Separated(stem), Separated(u), "--");
  }

  // ---------------------------------------------------------------------------------------------
  // The extension, and the form that is not this one
  // ---------------------------------------------------------------------------------------------

  /** An executable's extension, in any case, possibly doubled; or none. */
  predicate IsExtension(ext: string) {
    ext == [] || Lower(ext) == ".exe" || Lower(ext) == ".exe.exe"
  }

  predicate HasExtension(s: string) {
    EndsWith(Lower(s), ".exe")
  }

  predicate NamesHost(s: string) {
    Contains(Lower(s), "host=")
  }

  lemma LowerConcat(a: string, b: string)
    ensures Lower(a + b) == Lower(a) + Lower(b)
  {
  }

  /** Letters are lowered one by one, and nothing else in ASCII is changed. */
  lemma LowerLetters(c: char)
    requires c as int < 128
    ensures LowerChar(c) as int == if 65 <= c as int <= 90 then c as int + 32 else c as int
    ensures LowerChar('H') == 'h' && LowerChar('E') == 'e' && LowerChar('K') == 'k' && LowerChar('A') == 'a'
  {
  }

  lemma LowerKeepsAway(s: string, c: char)
    requires Without(s, c) && !('a' <= c <= 'z')
    ensures Without(Lower(s), c)
  {
  }

  lemma SuffixBoth(a: string, c: string, b: string)
    ensures EndsWith(a + b, c + b) <==> EndsWith(a, c)
  {
    if |c| <= |a| {
      assert (a + b)[|a| - |c|..] == a[|a| - |c|..] + b;
      assert (a[|a| - |c|..] + b)[..|c|] == a[|a| - |c|..] && (c + b)[..|c|] == c;
    }
  }

  /** The extension, and nothing else, is cut off exactly if no other stands before it. */
  lemma ExtensionStripped(s: string, ext: string)
    requires IsExtension(ext)
    ensures StripExe(s + ext) == s <==> !HasExtension(s) || Lower(ext) == ".exe.exe"
  {
    var lower := Lower(s);
    LowerConcat(s, ext);
    assert ".exe" + ".exe" == ".exe.exe";
    if ext == [] {
      assert s + ext == s && lower + Lower(ext) == lower;
      SuffixOfSuffix(lower);
    } else {
      SuffixBoth(lower, [], Lower(ext));
      assert [] + Lower(ext) == Lower(ext) && EndsWith(lower, []);
      SuffixBoth(lower, ".exe", ".exe");
      assert (s + ext)[..|s|] == s;
    }
  }

  lemma SuffixOfSuffix(s: string)
    ensures EndsWith(s, ".exe.exe") ==> EndsWith(s, ".exe")
  {
    assert |s| >= 8 ==> s[|s| - 4..] == s[|s| - 8..][4..];
    assert ".exe.exe"[4..] == ".exe";
  }

  lemma NoHost(s: string)
    requires Without(s, '=')
    ensures !NamesHost(s)
  {
    LowerKeepsAway(s, '=');
    forall i: nat ensures !OccursAt("host=", Lower(s), i) {
      if OccursAt("host=", Lower(s), i) {
        OccursChar("host=", Lower(s), i, 4);
      }
    }
  }

  // ---------------------------------------------------------------------------------------------
  // Decorations
  // ---------------------------------------------------------------------------------------------

  predicate IsDecorationChar(c: char) {
    IsWhitespace(c) || c == '(' || c == ')' || '0' <= c <= '9'
  }

  /** What a browser or a file manager appends: spaces, or counters in parentheses such as `(1)` or
      ` (1) (2)`. */
  predicate IsDecoration(d: string) {
    && (forall i | 0 <= i < |d| :: IsDecorationChar(d[i]))
    && (AllSpaces(d) || exists k | 0 <= k < |d| :: d[k] == '(' && AllSpaces(d[..k]))
  }

  lemma NotDecoded(text: string, i: nat)
    requires i < |text| && text[i] == '('
    ensures Decode(text).None? && DecodePadded(text).None?
  {
    var kept := text[..|text| - Padding(text)];
    assert !AllInAlphabet(text);
    assert i < |kept| && kept[i] == '(';
  }

  lemma NotBase64(verify: Verify, s: string)
    requires '(' in s
    ensures FromConfigString(verify, s).None?
  {
    var i :| 0 <= i < |s| && s[i] == '(';
    NotDecoded(Reverse(s), |s| - 1 - i);
  }

  lemma DecoratedWhole(verify: Verify, part: string)
    requires '(' in part
    ensures FromConfigString(verify, Trim(part)).None?
  {
    TrimStartKeeps(part, '(');
    TrimEndKeeps(TrimStart(part), '(');
    NotBase64(verify, Trim(part));
  }

  lemma ParenOccurs(s: string, i: nat)
    requires i < |s|
    ensures OccursAt("(", s, i) <==> s[i] == '('
  {
    assert s[i..i + 1] == [s[i]];
  }

  /** Up to the first parenthesis is the first piece. */
  lemma FirstPiece(a: string, b: string)
    requires Without(a, '(')
    ensures Contains(a + "(" + b, "(")
    ensures Split(a + "(" + b, "(")[0] == a
  {
    var s := a + "(" + b;
    assert s == a + ("(" + b);
    ParenOccurs(s, |a|);
    forall i: nat | i < |a| ensures !OccursAt("(", s, i) {
      ParenOccurs(s, i);
    }
    SplitAfter(a, "(" + b, "(");
    assert ("(" + b)[..1] == "(";
    assert a + [] == a;
  }

  lemma SpacesTrimmed(name: string, spaces: string)
    requires name != [] && AllInAlphabet(name) && AllSpaces(spaces)
    ensures Trim(name + spaces) == name
  {
    TrimAfter(name, spaces);
  }

  lemma NoParenthesisYet(name: string, spaces: string)
    requires AllInAlphabet(name) && AllSpaces(spaces)
    ensures Without(name + spaces, '(')
  {
  }

  lemma CounterParses(verify: Verify, name: string, spaces: string, more: string, server: CustomServer)
    requires name != [] && AllInAlphabet(name) && AllSpaces(spaces)
    requires FromConfigString(verify, name) == Some(server)
    ensures FromPart(verify, (name + spaces) + "(" + more) == Some(server)
  {
    var part := (name + spaces) + "(" + more;
    assert part[|name + spaces|] == '(';
    DecoratedWhole(verify, part);
    NoParenthesisYet(name, spaces);
    FirstPiece(name + spaces, more);
    SpacesTrimmed(name, spaces);
  }

  lemma SpacesParse(verify: Verify, name: string, spaces: string, server: CustomServer)
    requires name != [] && AllInAlphabet(name) && AllSpaces(spaces)
    requires FromConfigString(verify, name) == Some(server)
    ensures FromPart(verify, name + spaces) == Some(server)
  {
    SpacesTrimmed(name, spaces);
  }

  lemma AtParenthesis(name: string, d: string, k: nat)
    requires k < |d| && d[k] == '('
    ensures name + d == (name + d[..k]) + "(" + d[k + 1..]
  {
    assert d == d[..k] + [d[k]] + d[k + 1..];
  }

  /** A name parses with spaces and counters after it. */
  lemma DecoratedParses(verify: Verify, name: string, decoration: string, server: CustomServer)
    requires name != [] && AllInAlphabet(name) && IsDecoration(decoration)
    requires FromConfigString(verify, name) == Some(server)
    ensures FromPart(verify, name + decoration) == Some(server)
  {
    if AllSpaces(decoration) {
      SpacesParse(verify, name, decoration, server);
    } else {
      var k :| 0 <= k < |decoration| && decoration[k] == '(' && AllSpaces(decoration[..k]);
      AtParenthesis(name, decoration, k);
      CounterParses(verify, name, decoration[..k], decoration[k + 1..], server);
    }
  }

  // ---------------------------------------------------------------------------------------------
  // The round trip
  // ---------------------------------------------------------------------------------------------

  lemma CleanDecorated(name: string, decoration: string)
    requires Clean(name) && IsDecoration(decoration)
    ensures Clean(name + decoration)
  {
    var s := name + decoration;
    forall i: nat ensures !OccursAt("--", s, i) && !OccursAt("-licensed-", s, i) {
      SeparatorChars(s, i);
      if i + 2 <= |name| {
        OccursInside("--", name, decoration, i);
      }
      if i + 10 <= |name| {
        OccursInside("-licensed-", name, decoration, i);
      }
    }
  }

  lemma NameFollows(server: CustomServer, decoration: string)
    requires ServerOfBytes(server) && Clean(GenName(server)) && IsDecoration(decoration)
    ensures Follows(GenName(server) + decoration)
  {
    NameShape(server);
    CleanDecorated(GenName(server), decoration);
  }

  lemma NameWithout(server: CustomServer, decoration: string)
    requires ServerOfBytes(server) && IsDecoration(decoration)
    ensures Without(GenName(server) + decoration, '.') && Without(GenName(server) + decoration, '=')
  {
    NameShape(server);
  }

  lemma NameLength(server: CustomServer)
    requires ServerOfBytes(server)
    ensures |GenName(server)| >= 4
  {
    PrintBelow(server, 256);
    PrintLength(server);
    EncodedIsLonger(Print(server));
  }

  lemma EncodedIsLonger(b: string)
    requires IsBytes(b) && |b| >= 3
    ensures |Encode(b)| >= 4
  {
  }

  lemma WithoutConcat(a: string, b: string, c: char)
    ensures Without(a + b, c) <==> Without(a, c) && Without(b, c)
  {
    assert forall i | 0 <= i < |a| :: a[i] == (a + b)[i];
    assert forall i | 0 <= i < |b| :: b[i] == (a + b)[|a| + i];
  }

  /** A host is named in one of the outer texts, if the text between them has no equals sign and the last
      begins with a dash. */
  lemma HostAround(stem: string, mid: string, rest: string)
    requires Without(mid, '=') && (rest == [] || rest[0] == '-')
    requires !NamesHost(stem) && !NamesHost(rest)
    ensures !NamesHost(stem + (mid + rest))
  {
    var a, m, b := Lower(stem), Lower(mid), Lower(rest);
    LowerConcat(mid, rest);
    LowerConcat(stem, mid + rest);
    LowerKeepsAway(mid, '=');
    forall i: nat ensures !OccursAt("host=", a + (m + b), i) {
      if OccursAt("host=", a + (m + b), i) {
        HostPlace(a, m, b, i);
      }
    }
  }

  lemma HostPlace(a: string, m: string, b: string, i: nat)
    requires Without(m, '=') && (b == [] || b[0] == '-') && OccursAt("host=", a + (m + b), i)
    ensures Contains(a, "host=") || Contains(b, "host=")
  {
    var s := a + (m + b);
    OccursChar("host=", s, i, 4);
    if i + 4 < |a| {
      OccursInside("host=", a, m + b, i);
    } else {
      assert i + 4 >= |a + m|;
      assert s == (a + m) + b;
      if i < |a + m| {
        OccursChar("host=", s, i, |a + m| - i);
      } else {
        AfterOccurs("host=", a + m, b, i - |a + m|);
      }
    }
  }

  /** Text that ends in four characters that are no dots, or goes on behind a dash without an extension,
      has none. */
  lemma NoExtensionAround(front: string, tail: string, rest: string)
    requires |tail| >= 4 && Without(tail, '.') && IsRest(rest) && !HasExtension(rest)
    ensures !HasExtension(front + (tail + rest))
  {
    var s := front + (tail + rest);
    var lower := Lower(s);
    var end := lower[|s| - 4..];
    RestChars(rest);
    if rest == [] {
      assert end[0] == LowerChar(tail[|tail| - 4]);
    } else if |rest| >= 4 {
      assert end == Lower(rest)[|rest| - 4..];
    } else {
      assert end[4 - |rest|] == '-';
    }
  }

  /** No part of the text is a server. */
  predicate NoServerIn(verify: Verify, stem: string) {
    FirstPart(verify, Split(Separated(stem), "--")).None?
  }

  lemma {:induction false} FirstPartConcat(verify: Verify, p: seq<string>, q: seq<string>)
    ensures FirstPart(verify, p + q) == OrElse(FirstPart(verify, p), FirstPart(verify, q))
    decreases |p|
  {
    if p == [] {
      assert p + q == q;
    } else {
      assert (p + q)[1..] == p[1..] + q;
      FirstPartConcat(verify, p[1..], q);
    }
  }

  /** Without a host assignment, the first part that is a server is the answer. */
  lemma FoundInParts(verify: Verify, s: string, ext: string)
    requires !NamesHost(s) && !HasExtension(s) && IsExtension(ext)
    ensures FromString(verify, s + ext) == FirstPart(verify, Split(Separated(s), "--"))
  {
    ExtensionStripped(s, ext);
  }

  /** What stands before a separator plays no part, if it names no host and holds no server. */
  lemma FoundAfter(verify: Verify, stem: string, sep: string, u: string, ext: string)
    requires EndsPlain(stem) && NoServerIn(verify, stem) && IsSeparator(sep) && IsExtension(ext)
    requires u != [] && u[0] != '-' && u[0] != 'l'
    requires !NamesHost(stem + (sep + u)) && !HasExtension(stem + (sep + u))
    ensures FromString(verify, stem + (sep + u) + ext) == FirstPart(verify, Split(Separated(u), "--"))
  {
    FoundInParts(verify, stem + (sep + u), ext);
    PartsAround(stem, sep, u);
    FirstPartConcat(verify, Split(Separated(stem), "--"), Split(Separated(u), "--"));
  }

  lemma FileIsNeutral(stem: string, sep: string, tail: string, rest: string)
    requires !NamesHost(stem) && IsSeparator(sep) && Without(tail, '=') && Without(tail, '.') && |tail| >= 4
    requires IsRest(rest) && !NamesHost(rest) && !HasExtension(rest)
    ensures !NamesHost(stem + (sep + (tail + rest))) && !HasExtension(stem + (sep + (tail + rest)))
  {
    RestChars(rest);
    SeparatorWithout(sep, tail);
    HostAround(stem, sep + tail, rest);
    Regroup(sep, tail, rest);
    NoExtensionAround(stem + sep, tail, rest);
    Regroup(stem, sep, tail + rest);
  }

  lemma SeparatorWithout(sep: string, tail: string)
    requires IsSeparator(sep) && Without(tail, '=')
    ensures Without(sep + tail, '=')
  {
    assert Without(sep, '=');
    WithoutConcat(sep, tail, '=');
  }

  lemma BarePass(p: string, tail: string, rest: string)
    requires IsLicensed(p) && Follows(tail) && IsRest(rest)
    ensures IsRest(Replace(rest, p, "--")) && (rest == [] ==> Replace(rest, p, "--") == [])
    ensures Replace(tail + rest, p, "--") == tail + Replace(rest, p, "--")
  {
    LicensedChars(p);
    RestKept(rest, p);
    NotInTail(p, tail, rest);
    ReplaceAfter(tail, rest, p, "--");
  }

  lemma BareReplaced(tail: string, rest: string) returns (more: string)
    requires Follows(tail) && IsRest(rest)
    ensures IsRest(more) && (rest == [] ==> more == []) && Separated(tail + rest) == tail + more
  {
    more := rest;
    BarePass("-licensed---", tail, more);
    more := Replace(more, "-licensed---", "--");
    BarePass("-licensed--", tail, more);
    more := Replace(more, "-licensed--", "--");
    BarePass("-licensed-", tail, more);
    more := Replace(more, "-licensed-", "--");
  }

  /** The first part of a clean name and what follows it is that name. */
  lemma NameIsFirstPart(verify: Verify, server: CustomServer, decoration: string, rest: string)
    requires ServerOfBytes(server) && Clean(GenName(server)) && IsDecoration(decoration) && IsRest(rest)
    ensures FirstPart(verify, Split(Separated(GenName(server) + decoration + rest), "--")) == Some(server)
  {
    var tail := GenName(server) + decoration;
    NameShape(server);
    NameFollows(server, decoration);
    var more := BareReplaced(tail, rest);
    DashesNotInTail(tail, more);
    SplitAfter(tail, more, "--");
    SplitRest(more);
    NameParses(verify, server);
    DecoratedParses(verify, GenName(server), decoration, server);
    assert tail + [] == tail;
  }

  /** Whatever stands around the name, as long as neither separator occurs in the name itself: text that
      names no host, holds no server and does not end in part of a separator; any separator; spaces and
      counters; anything behind another `--` that names no host and has no extension of its own; and an
      extension. */
  lemma CleanNameRoundTrip(verify: Verify, server: CustomServer,
                           stem: string, sep: string, decoration: string, rest: string, ext: string)
    requires ServerOfBytes(server) && Clean(GenName(server))
    requires EndsPlain(stem) && !NamesHost(stem) && NoServerIn(verify, stem) && IsSeparator(sep)
    requires IsDecoration(decoration) && IsRest(rest) && !NamesHost(rest) && !HasExtension(rest) && IsExtension(ext)
    ensures FromString(verify, stem + (sep + (GenName(server) + decoration + rest)) + ext) == Some(server)
  {
    var tail := GenName(server) + decoration;
    NameShape(server);
    NameWithout(server, decoration);
    NameLength(server);
    FileIsNeutral(stem, sep, tail, rest);
    NameFollows(server, decoration);
    FoundAfter(verify, stem, sep, tail + rest, ext);
    NameIsFirstPart(verify, server, decoration, rest);
  }

  /** The application's own name, as far as it matters that this is no server. */
  predicate LooksLikeRustdesk(stem: string) {
    && |stem| == 8 && !IsWhitespace(stem[0]) && stem[6] == 's' && stem[7] == 'k'
    && Without(stem, '-') && Without(stem, '=') && Without(stem, '(')
  }

  lemma RustdeskDecodes(stem: string)
    requires LooksLikeRustdesk(stem)
    ensures Decode(Reverse(stem)).Some?
         ==> var d := Decode(Reverse(stem)).value; |d| == 6 && d[0] as int == 146
    ensures DecodePadded(Reverse(stem)) == Decode(Reverse(stem))
  {
    var text := Reverse(stem);
    assert text[0] == 'k' && text[1] == 's' && text[7] == stem[0];
    assert text[..8] == text;
    if AllInAlphabet(text) {
      assert Sextets(text)[0] == 36 && Sextets(text)[1] == 44;
    }
  }

  lemma NoParenthesis(s: string)
    requires Without(s, '(')
    ensures !Contains(s, "(")
  {
    forall i: nat | i <= |s| ensures !OccursAt("(", s, i) {
      if i < |s| {
        ParenOccurs(s, i);
      }
    }
  }

  lemma NoObject(d: string)
    requires d != [] && !IsSpace(d[0]) && d[0] != '{'
    ensures Read(d).None?
  {
  }

  lemma TrimNothing(s: string)
    requires s != [] && !IsWhitespace(s[0]) && !IsWhitespace(s[|s| - 1])
    ensures Trim(s) == s
  {
  }

  lemma RustdeskIsNoConfig(verify: Verify, stem: string)
    requires RejectsShort(verify) && LooksLikeRustdesk(stem)
    ensures FromConfigString(verify, stem).None?
  {
    RustdeskDecodes(stem);
    var data := Decode(Reverse(stem));
    if data.Some? {
      NoObject(data.value);
      assert verify(data.value).None?;
    }
  }

  /** That name is no server: it is base64 text, but of six bytes that are no object. */
  lemma RustdeskIsNoServer(verify: Verify, stem: string)
    requires RejectsShort(verify) && LooksLikeRustdesk(stem)
    ensures FromPart(verify, stem).None?
  {
    TrimNothing(stem);
    RustdeskIsNoConfig(verify, stem);
    NoParenthesis(stem);
  }

  /** Text without dashes is one part, and no separator begins in it. */
  lemma PlainStem(stem: string)
    requires Without(stem, '-')
    ensures EndsPlain(stem) && Separated(stem) == stem && Split(stem, "--") == [stem]
  {
    LicensedEnd(stem);
    assert stem + [] == stem;
    NotInPlain("-licensed---", stem, []);
    NotInPlain("-licensed--", stem, []);
    NotInPlain("-licensed-", stem, []);
    NotInPlain("--", stem, []);
    ReplaceAfter(stem, [], "-licensed---", "--");
    ReplaceAfter(stem, [], "-licensed--", "--");
    ReplaceAfter(stem, [], "-licensed-", "--");
    SplitAfter(stem, [], "--");
  }

  lemma SinglePart(verify: Verify, stem: string)
    requires Separated(stem) == stem && Split(stem, "--") == [stem] && FromPart(verify, stem).None?
    ensures NoServerIn(verify, stem)
  {
    assert [stem][1..] == [];
    assert FirstPart(verify, []).None?;
  }

  lemma RustdeskLooksSo(stem: string)
    requires stem == "rustdesk"
    ensures LooksLikeRustdesk(stem)
  {
  }

  /** For every server with ASCII fields, the name after `rustdesk` and a separator, decorated, parses
      back to that server. */
  lemma AsciiNameRoundTrip(verify: Verify, server: CustomServer,
                           stem: string, sep: string, decoration: string, rest: string, ext: string)
    requires RejectsShort(verify) && ServerOfAscii(server) && stem == "rustdesk" && IsSeparator(sep)
    requires IsDecoration(decoration) && IsRest(rest) && !NamesHost(rest) && !HasExtension(rest) && IsExtension(ext)
    ensures ServerOfBytes(server)
    ensures FromString(verify, stem + (sep + (GenName(server) + decoration + rest)) + ext) == Some(server)
  {
    NameDashes(server);
    DashesApartIsClean(GenName(server));
    RustdeskLooksSo(stem);
    RustdeskIsNoServer(verify, stem);
    NoHost(stem);
    PlainStem(stem);
    SinglePart(verify, stem);
    CleanNameRoundTrip(verify, server, stem, sep, decoration, rest, ext);
  }

  /** A name with nothing before it, as it is passed on the command line, parses too. */
  lemma BareNameRoundTrip(verify: Verify, server: CustomServer, decoration: string, rest: string, ext: string)
    requires ServerOfBytes(server) && Clean(GenName(server))
    requires IsDecoration(decoration) && IsRest(rest) && !NamesHost(rest) && !HasExtension(rest) && IsExtension(ext)
    ensures FromString(verify, GenName(server) + decoration + rest + ext) == Some(server)
  {
    var tail := GenName(server) + decoration;
    NameWithout(server, decoration);
    NameLength(server);
    RestChars(rest);
    NoHost([]);
    HostAround([], tail, rest);
    NoExtensionAround([], tail, rest);
    assert [] + (tail + rest) == tail + rest;
    FoundInParts(verify, tail + rest, ext);
    NameIsFirstPart(verify, server, decoration, rest);
  }

  function Equals(n: nat): (s: string)
    ensures |s| == n && forall i | 0 <= i < n :: s[i] == '='
  {
    seq(n, i => '=')
  }

  /** Padding is accepted if it is exactly what the length calls for. */
  predicate PaddingFits(length: nat, n: nat) {
    n == 0 || (n <= 2 && (length + n) % 4 == 0)
  }

  lemma PaddedShape(text: string, n: nat)
    requires AllInAlphabet(text) && |text| >= 2 && n >= 1
    ensures var padded := text + Equals(n);
            && Decode(padded) == None && Padding(padded) == (if n == 1 then 1 else 2)
            && Decode(padded[..|padded| - Padding(padded)]) == if n <= 2 then Decode(text) else None
  {
    var padded := text + Equals(n);
    assert padded[|text|] == '=' && !InAlphabet('=');
    assert padded[|padded| - 1] == '=';
    var kept := padded[..|padded| - Padding(padded)];
    if n <= 2 {
      assert kept == text;
    } else {
      assert kept[|text|] == '=';
    }
  }

  lemma PaddedDecodes(text: string, n: nat)
    requires AllInAlphabet(text) && |text| >= 2
    ensures OrElse(Decode(text + Equals(n)), DecodePadded(text + Equals(n)))
         == if PaddingFits(|text|, n) then OrElse(Decode(text), DecodePadded(text)) else None
  {
    if n == 0 {
      assert text + Equals(n) == text;
    } else {
      PaddedShape(text, n);
      if n <= 2 && (|text| + n) % 4 == 0 {
        NotAMultiple(|text|, n);
      }
    }
  }

  lemma NotAMultiple(x: int, n: int)
    requires 1 <= n <= 2 && (x + n) % 4 == 0
    ensures x % 4 != 0
  {
  }

  lemma ReversePadded(name: string, n: nat)
    ensures Reverse(Equals(n) + name) == Reverse(name) + Equals(n)
  {
  }

  lemma PaddedText(verify: Verify, name: string, n: nat, server: CustomServer)
    requires AllInAlphabet(name) && |name| >= 2 && FromConfigString(verify, name) == Some(server)
    ensures FromConfigString(verify, Equals(n) + name)
         == if PaddingFits(|name|, n) then Some(server) else None
  {
    ReversePadded(name, n);
    PaddedDecodes(Reverse(name), n);
  }

  /** Equals signs in front of a name, which are padding once it is reversed, are accepted if and
      only if they are the right number. */
  lemma PaddedNameParses(verify: Verify, server: CustomServer, n: nat)
    requires ServerOfBytes(server)
    ensures FromConfigString(verify, Equals(n) + GenName(server))
         == if PaddingFits(|GenName(server)|, n) then Some(server) else None
  {
    NameShape(server);
    NameParses(verify, server);
    assert |GenName(server)| >= 2;
    PaddedText(verify, GenName(server), n, server);
  }
}
