/** The JSON pointer of a field path, and reading it back as RFC 6901 says to. */
module JsonPointers {
  import opened Outcomes
  import opened Texts

  predicate IsSeparator(c: char) {
    c == '.' || c == '[' || c == ']'
  }

  predicate IsSlash(c: char) {
    c == '/'
  }

  function NonEmpty(parts: seq<string>): seq<string> {
    if parts == [] then []
    else
      var before, last := NonEmpty(parts[..|parts| - 1]), parts[|parts| - 1];
      if last != [] then before + [last] else before
  }

  /** The reference tokens a field path names: its parts, without the empty ones. */
  function Tokens(field: string): seq<string> {
    NonEmpty(Split(field, IsSeparator))
  }

  function EscapedChar(c: char): string {
    if c == '~' then "~0" else if c == '/' then "~1" else [c]
  }

  function Escaped(token: string): string {
    if token == [] then [] else Escaped(token[..|token| - 1]) + EscapedChar(token[|token| - 1])
  }

  function PointerOf(tokens: seq<string>): string {
    if tokens == [] then [] else PointerOf(tokens[..|tokens| - 1]) + "/" + Escaped(tokens[|tokens| - 1])
  }

  /** Push one token, character by character, behind the pointer so far. */
  method PushToken(pointer: string, token: string) returns (longer: string)
    ensures longer == pointer + "/" + Escaped(token)
  {
    longer := pointer + "/";
    for i := 0 to |token|
      invariant longer == pointer + "/" + Escaped(token[..i])
    {
      assert token[..i + 1][..i] == token[..i];
      if token[i] == '~' {
        longer := longer + "~0";
      } else if token[i] == '/' {
        longer := longer + "~1";
      } else {
        longer := longer + [token[i]];
      }
    }
    assert token[..|token|] == token;
  }

  lemma {:induction false} NonEmptySnoc(parts: seq<string>, i: nat)
    requires i < |parts|
    ensures NonEmpty(parts[..i + 1]) == if parts[i] != [] then NonEmpty(parts[..i]) + [parts[i]] else NonEmpty(parts[..i])
  {
    assert parts[..i + 1][..i] == parts[..i];
  }

  lemma {:induction false} PointerSnoc(tokens: seq<string>, token: string)
    ensures PointerOf(tokens + [token]) == PointerOf(tokens) + "/" + Escaped(token)
  {
    assert (tokens + [token])[..|tokens|] == tokens;
  }

  method JsonPointer(field: string) returns (pointer: string)
    ensures pointer == PointerOf(Tokens(field))
  {
    pointer := "";
    var parts := Split(field, IsSeparator);
    for i := 0 to |parts|
      invariant pointer == PointerOf(NonEmpty(parts[..i]))
    {
      NonEmptySnoc(parts, i);
      if parts[i] != [] {
        PointerSnoc(NonEmpty(parts[..i]), parts[i]);
        pointer := PushToken(pointer, parts[i]);
      }
    }
    assert parts[..|parts|] == parts;
  }

  // ---- The grammar of RFC 6901, section 3 -------------------------------------------

  /** reference-token: characters other than `/` and `~`, and the escapes `~0` and `~1`. */
  predicate IsReferenceToken(s: string) {
    s == []
    || (s[0] == '~' && |s| > 1 && (s[1] == '0' || s[1] == '1') && IsReferenceToken(s[2..]))
    || (s[0] != '~' && s[0] != '/' && IsReferenceToken(s[1..]))
  }

  /** json-pointer: any number of reference tokens, each behind a slash. */
  predicate IsJsonPointer(s: string) {
    s == []
    || (s[0] == '/' && forall k | 0 < k < |Split(s, IsSlash)| :: IsReferenceToken(Split(s, IsSlash)[k]))
  }

  // ---- Reading a pointer, RFC 6901, section 4 ----------------------------------------

  /** Every `~` followed by a digit becomes one character. */
  function Decoded(s: string, digit: char, c: char): string {
    if |s| >= 2 && s[0] == '~' && s[1] == digit then [c] + Decoded(s[2..], digit, c)
    else if s == [] then []
    else [s[0]] + Decoded(s[1..], digit, c)
  }

  /** First every `~1`, then every `~0`. */
  function ReadToken(s: string): string {
    Decoded(Decoded(s, '1', '/'), '0', '~')
  }

  function ReadTokens(parts: seq<string>): (tokens: seq<string>)
    ensures |tokens| == |parts|
  {
    if parts == [] then [] else ReadTokens(parts[..|parts| - 1]) + [ReadToken(parts[|parts| - 1])]
  }

  function ReadPointer(s: string): Option<seq<string>> {
    if s == [] then Some([])
    else if s[0] != '/' then None
    else Some(ReadTokens(Split(s, IsSlash)[1..]))
  }

  // ---- The round trip ------------------------------------------------------------------

  lemma {:induction false} EscapedSnoc(token: string, c: char)
    ensures Escaped(token + [c]) == Escaped(token) + EscapedChar(c)
  {
    assert (token + [c])[..|token|] == token;
  }

  lemma {:induction false} Joined(x: string, y: string, z: string)
    ensures (x + y) + z == x + (y + z)
  {
  }

  lemma {:induction false} EscapedCons(c: char, token: string)
    ensures Escaped([c] + token) == EscapedChar(c) + Escaped(token)
  {
    if token == [] {
      assert [c] + token == [] + [c];
      EscapedSnoc([], c);
    } else {
      var init, last := token[..|token| - 1], token[|token| - 1];
      assert [c] + token == ([c] + init) + [last];
      EscapedCons(c, init);
      EscapedSnoc([c] + init, last);
      Joined(EscapedChar(c), Escaped(init), EscapedChar(last));
    }
  }

  /** Tildes escaped, slashes not: what is left after the first decoding pass. */
  function TildesEscaped(token: string): string {
    if token == [] then []
    else (if token[0] == '~' then "~0" else [token[0]]) + TildesEscaped(token[1..])
  }

  lemma {:induction false} DecodedPlain(c: char, s: string, digit: char, to: char)
    requires c != '~'
    ensures Decoded([c] + s, digit, to) == [c] + Decoded(s, digit, to)
  {
    assert ([c] + s)[1..] == s;
  }

  lemma {:induction false} DecodedEscape(d: char, s: string, digit: char, to: char)
    requires d != '~'
    ensures Decoded(['~', d] + s, digit, to) == (if d == digit then [to] else ['~', d]) + Decoded(s, digit, to)
  {
    var whole := ['~', d] + s;
    assert whole[2..] == s;
    if d != digit {
      assert whole[1..] == [d] + s;
      DecodedPlain(d, s, digit, to);
    }
  }

  lemma {:induction false} SlashesFirst(token: string)
    ensures Decoded(Escaped(token), '1', '/') == TildesEscaped(token)
    decreases |token|
  {
    if token != [] {
      var c, rest := token[0], token[1..];
      assert token == [c] + rest;
      EscapedCons(c, rest);
      SlashesFirst(rest);
      if c == '~' {
        DecodedEscape('0', Escaped(rest), '1', '/');
      } else if c == '/' {
        DecodedEscape('1', Escaped(rest), '1', '/');
      } else {
        DecodedPlain(c, Escaped(rest), '1', '/');
      }
    }
  }

  lemma {:induction false} ThenTildes(token: string)
    ensures Decoded(TildesEscaped(token), '0', '~') == token
    decreases |token|
  {
    if token != [] {
      var c, rest := token[0], token[1..];
      ThenTildes(rest);
      if c == '~' {
        DecodedEscape('0', TildesEscaped(rest), '0', '~');
      } else {
        DecodedPlain(c, TildesEscaped(rest), '0', '~');
      }
      assert token == [c] + rest;
    }
  }

  lemma {:induction false} TokenReadsBack(token: string)
    ensures ReadToken(Escaped(token)) == token
  {
    SlashesFirst(token);
    ThenTildes(token);
  }

  lemma {:induction false} EscapedIsReferenceToken(token: string)
    ensures IsReferenceToken(Escaped(token))
    decreases |token|
  {
    if token != [] {
      var c, rest := token[0], token[1..];
      assert token == [c] + rest;
      EscapedCons(c, rest);
      EscapedIsReferenceToken(rest);
      var escaped := Escaped(token);
      if c == '~' || c == '/' {
        assert escaped[2..] == Escaped(rest);
      } else {
        assert escaped[1..] == Escaped(rest);
      }
    }
  }

  lemma {:induction false} ReferenceTokenHasNoSlash(s: string)
    requires IsReferenceToken(s)
    ensures Lacks(s, IsSlash)
  {
    if s != [] {
      if s[0] == '~' {
        ReferenceTokenHasNoSlash(s[2..]);
        assert forall i | 2 <= i < |s| :: s[i] == s[2..][i - 2];
      } else {
        ReferenceTokenHasNoSlash(s[1..]);
        assert forall i | 1 <= i < |s| :: s[i] == s[1..][i - 1];
      }
    }
  }

  function AllEscaped(tokens: seq<string>): (parts: seq<string>)
    ensures |parts| == |tokens|
    ensures forall k | 0 <= k < |tokens| :: parts[k] == Escaped(tokens[k])
  {
    if tokens == [] then [] else AllEscaped(tokens[..|tokens| - 1]) + [Escaped(tokens[|tokens| - 1])]
  }

  /** Splitting a pointer at its slashes gives the escaped tokens behind an empty part. */
  lemma {:induction false} PointerSplits(tokens: seq<string>)
    ensures Split(PointerOf(tokens), IsSlash) == [""] + AllEscaped(tokens)
  {
    if tokens == [] {
      assert [""] + AllEscaped(tokens) == [[]];
    } else {
      var init, last := tokens[..|tokens| - 1], tokens[|tokens| - 1];
      PointerSplits(init);
      EscapedIsReferenceToken(last);
      ReferenceTokenHasNoSlash(Escaped(last));
      SplitAtLast(PointerOf(init), '/', Escaped(last), IsSlash);
    }
  }

  lemma {:induction false} ReadTokensSnoc(parts: seq<string>, last: string)
    ensures ReadTokens(parts + [last]) == ReadTokens(parts) + [ReadToken(last)]
  {
    assert (parts + [last])[..|parts|] == parts;
  }

  lemma {:induction false} TokensReadBack(tokens: seq<string>)
    ensures ReadTokens(AllEscaped(tokens)) == tokens
  {
    if tokens != [] {
      var init, last := tokens[..|tokens| - 1], tokens[|tokens| - 1];
      TokensReadBack(init);
      TokenReadsBack(last);
      ReadTokensSnoc(AllEscaped(init), Escaped(last));
      assert tokens == init + [last];
    }
  }

  lemma {:induction false} PointerStartsWithSlash(tokens: seq<string>)
    ensures tokens == [] <==> PointerOf(tokens) == []
    ensures tokens != [] ==> PointerOf(tokens)[0] == '/'
  {
    if tokens != [] {
      PointerStartsWithSlash(tokens[..|tokens| - 1]);
    }
  }

  /** Whatever the tokens, the pointer is one, and it reads back as those tokens. */
  lemma {:induction false} PointerReadsBack(tokens: seq<string>)
    ensures IsJsonPointer(PointerOf(tokens))
    ensures ReadPointer(PointerOf(tokens)) == Some(tokens)
  {
    PointerSplits(tokens);
    PointerStartsWithSlash(tokens);
    TokensReadBack(tokens);
    forall k | 0 <= k < |tokens|
      ensures IsReferenceToken(AllEscaped(tokens)[k])
    {
      EscapedIsReferenceToken(tokens[k]);
    }
  }

  /** The two promises together, for every field. */
  lemma {:induction false} FieldReadsBack(field: string)
    ensures IsJsonPointer(PointerOf(Tokens(field)))
    ensures ReadPointer(PointerOf(Tokens(field))) == Some(Tokens(field))
  {
    PointerReadsBack(Tokens(field));
  }

  /** Two fields share a pointer exactly when they name the same tokens. */
  lemma {:induction false} PointersAgreeIff(field: string, other: string)
    ensures PointerOf(Tokens(field)) == PointerOf(Tokens(other)) <==> Tokens(field) == Tokens(other)
  {
    PointerReadsBack(Tokens(field));
    PointerReadsBack(Tokens(other));
  }

  // ---- What the tokens of a field are -----------------------------------------------------

  lemma {:induction false} NonEmptyAppend(parts: seq<string>, last: string)
    ensures NonEmpty(parts + [last]) == if last != [] then NonEmpty(parts) + [last] else NonEmpty(parts)
  {
    assert (parts + [last])[..|parts|] == parts;
  }

  lemma {:induction false} JoinedParts(a: seq<string>, b: seq<string>, c: seq<string>)
    ensures (a + b) + c == a + (b + c)
  {
  }

  lemma {:induction false} NonEmptyConcat(parts: seq<string>, more: seq<string>)
    ensures NonEmpty(parts + more) == NonEmpty(parts) + NonEmpty(more)
  {
    if more == [] {
      assert parts + more == parts;
    } else {
      var init, last := more[..|more| - 1], more[|more| - 1];
      assert more == init + [last];
      NonEmptyConcat(parts, init);
      NonEmptyAppend(parts + init, last);
      NonEmptyAppend(init, last);
      JoinedParts(parts, init, [last]);
      JoinedParts(NonEmpty(parts), NonEmpty(init), [last]);
    }
  }

  /** One more character opens a part or extends the last. */
  function Extended(parts: seq<string>, c: char): seq<string>
    requires parts != []
  {
    if IsSeparator(c) then parts + [[]] else parts[..|parts| - 1] + [parts[|parts| - 1] + [c]]
  }

  lemma {:induction false} SplitSnoc(s: string, c: char)
    ensures Split(s + [c], IsSeparator) == Extended(Split(s, IsSeparator), c)
  {
    assert (s + [c])[..|s|] == s;
  }

  lemma {:induction false} ExtendedConcat(parts: seq<string>, more: seq<string>, c: char)
    requires more != []
    ensures Extended(parts + more, c) == parts + Extended(more, c)
  {
    var n := |parts + more| - 1;
    assert (parts + more)[..n] == parts + more[..|more| - 1];
  }

  /** The split of one text follows that of another. */
  ghost predicate Follows(whole: string, x: string, y: string) {
    Split(whole, IsSeparator) == Split(x, IsSeparator) + Split(y, IsSeparator)
  }

  lemma {:induction false} FollowsSnoc(whole: string, x: string, y: string, c: char)
    requires Follows(whole, x, y)
    ensures Follows(whole + [c], x, y + [c])
  {
    SplitSnoc(whole, c);
    SplitSnoc(y, c);
    ExtendedConcat(Split(x, IsSeparator), Split(y, IsSeparator), c);
  }

  lemma {:induction false} SplitAtSeparator(x: string, c: char, y: string)
    requires IsSeparator(c)
    ensures Follows(x + [c] + y, x, y)
    decreases |y|
  {
    if y == [] {
      assert x + [c] + y == x + [c];
      SplitSnoc(x, c);
    } else {
      var init, last := y[..|y| - 1], y[|y| - 1];
      SplitAtSeparator(x, c, init);
      FollowsSnoc(x + [c] + init, x, init, last);
      Joined(x + [c], init, [last]);
      assert y == init + [last];
    }
  }

  /** A text without dots and brackets is one token, and the empty text is none. */
  lemma {:induction false} WordIsOneToken(word: string)
    requires forall i | 0 <= i < |word| :: word[i] !in {'.', '[', ']'}
    ensures Tokens(word) == if word == "" then [] else [word]
  {
    SplitLacking(word, IsSeparator);
    NonEmptyAppend([], word);
    assert [] + [word] == [word];
  }

  /** A dot or a bracket stands between tokens and belongs to none. With the tokens of
      a word this says what the tokens of every field are. */
  lemma {:induction false} SeparatorsPartTokens(x: string, c: char, y: string)
    requires c in {'.', '[', ']'}
    ensures Tokens(x + [c] + y) == Tokens(x) + Tokens(y)
  {
    SplitAtSeparator(x, c, y);
    NonEmptyConcat(Split(x, IsSeparator), Split(y, IsSeparator));
  }

  lemma {:induction false} ThreeParts(x: string, c: char, y: string, d: char, z: string)
    requires c in {'.', '[', ']'} && d in {'.', '[', ']'}
    ensures Tokens(x + [c] + y + [d] + z) == Tokens(x) + Tokens(y) + Tokens(z)
  {
    SeparatorsPartTokens(x, c, y);
    SeparatorsPartTokens(x + [c] + y, d, z);
  }

  lemma {:induction false} LeadingDot(rest: string)
    ensures Tokens("." + rest) == Tokens(rest)
  {
    SeparatorsPartTokens("", '.', rest);
    WordIsOneToken("");
    assert "" + "." + rest == "." + rest;
  }

  /** An index in brackets and an index behind a dot name the same token, with or
      without a dot after the bracket. */
  lemma {:induction false} BracketsAreDots(path: string, index: string, rest: string)
    ensures Tokens(path + "[" + index + "]" + rest) == Tokens(path + "." + index + "." + rest)
    ensures Tokens(path + "[" + index + "]." + rest) == Tokens(path + "." + index + "." + rest)
  {
    ThreeParts(path, '[', index, ']', rest);
    ThreeParts(path, '.', index, '.', rest);
    ThreeParts(path, '[', index, ']', "." + rest);
    LeadingDot(rest);
    Joined(path + "[" + index + "]", ".", rest);
    assert path + "[" + index + "]" + "." == path + "[" + index + "].";
  }

  /** The order of the two decoding passes matters: tildes first would read the
      escaped form of `~1` as a slash. */
  lemma {:induction false} TildesFirstMisreads()
    ensures ReadToken(Escaped("~1")) == "~1"
    ensures Decoded(Decoded(Escaped("~1"), '0', '~'), '1', '/') == "/"
  {
    TokenReadsBack("~1");
    assert "~1"[..1] == "~" && "~"[..0] == "";
    assert Escaped("~1") == "~01" == ['~', '0'] + "1";
    DecodedEscape('0', "1", '0', '~');
    assert Decoded("1", '0', '~') == "1";
    DecodedEscape('1', "", '1', '/');
    assert "~1" == ['~', '1'] + "";
  }
}
