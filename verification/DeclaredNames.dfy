/** The names that declared sources and imports are derived from, before hashing.
    A character stands for one byte of the UTF-8 name, so a length is a byte count. */
module DeclaredNames {
  import opened Outcomes
  import opened Texts

  const ID_LENGTH := 36

  /** A hyphenated identifier: always thirty-six bytes. */
  type Id = s: string | |s| == ID_LENGTH witness seq(ID_LENGTH, _ => '0')

  datatype Import = Import(owner: Id, account: Id, channel: string, legend: string)

  function SourceName(owner: Id, account: Id, channel: string): string {
    owner + "/" + account + "/" + channel
  }

  function ImportName(i: Import): string {
    i.owner + "/" + i.account + "/" + Decimal(|i.channel|) + "/" + i.channel + "/" + i.legend
  }

  // ---- Reading a name back ---------------------------------------------------------

  datatype Source = Source(owner: Id, account: Id, channel: string)

  function ReadSource(name: string): Option<Source> {
    if |name| < 2 * ID_LENGTH + 2 || name[ID_LENGTH] != '/' || name[2 * ID_LENGTH + 1] != '/' then None
    else Some(Source(name[..ID_LENGTH], name[ID_LENGTH + 1..2 * ID_LENGTH + 1], name[2 * ID_LENGTH + 2..]))
  }

  /** The position of the first slash, or the length if there is none. */
  function FirstSlash(s: string): (i: nat)
    ensures i <= |s|
    ensures forall k | 0 <= k < i :: s[k] != '/'
    ensures i < |s| ==> s[i] == '/'
  {
    if s == [] || s[0] == '/' then 0 else 1 + FirstSlash(s[1..])
  }

  /** What follows the identifiers: a length, a channel of that length, and the label. */
  function ReadTail(tail: string): Option<(string, string)> {
    var n := FirstSlash(tail);
    if n == |tail| || !IsCanonical(tail[..n]) then None
    else
      var size, rest := ValueOf(tail[..n]), tail[n + 1..];
      if |rest| <= size || rest[size] != '/' then None else Some((rest[..size], rest[size + 1..]))
  }

  function ReadImport(name: string): Option<Import> {
    match ReadSource(name)
    case None => None
    case Some(source) =>
      match ReadTail(source.channel)
      case None => None
      case Some((channel, legend)) => Some(Import(source.owner, source.account, channel, legend))
  }

  lemma {:induction false} SourceReadsBack(s: Source)
    ensures ReadSource(SourceName(s.owner, s.account, s.channel)) == Some(s)
  {
    var name := SourceName(s.owner, s.account, s.channel);
    assert name[..ID_LENGTH] == s.owner;
    assert name[ID_LENGTH + 1..2 * ID_LENGTH + 1] == s.account;
    assert name[2 * ID_LENGTH + 2..] == s.channel;
  }

  lemma {:induction false} SourceReprints(name: string)
    requires ReadSource(name).Some?
    ensures var s := ReadSource(name).value; SourceName(s.owner, s.account, s.channel) == name
  {
    var s := ReadSource(name).value;
    assert name == s.owner + "/" + s.account + "/" + s.channel;
  }

  function Tail(channel: string, legend: string): string {
    Decimal(|channel|) + "/" + channel + "/" + legend
  }

  lemma {:induction false} FirstSlashAfter(s: string, t: string)
    requires forall k | 0 <= k < |s| :: s[k] != '/'
    ensures FirstSlash(s + "/" + t) == |s|
  {
    var whole := s + "/" + t;
    assert whole[|s|] == '/';
    assert forall k | 0 <= k < |s| :: whole[k] == s[k];
  }

  lemma {:induction false} TailReadsBack(channel: string, legend: string)
    ensures ReadTail(Tail(channel, legend)) == Some((channel, legend))
  {
    var tail, digits := Tail(channel, legend), Decimal(|channel|);
    var rest := channel + "/" + legend;
    assert tail == digits + "/" + rest;
    assert forall k | 0 <= k < |digits| :: IsDigit(digits[k]);
    FirstSlashAfter(digits, rest);
    DecimalIsCanonical(|channel|);
    DecimalReadsBack(|channel|);
    assert tail[..|digits|] == digits && tail[|digits| + 1..] == rest;
    assert rest[..|channel|] == channel && rest[|channel| + 1..] == legend;
  }

  lemma {:induction false} TailReprints(tail: string)
    requires ReadTail(tail).Some?
    ensures Tail(ReadTail(tail).value.0, ReadTail(tail).value.1) == tail
  {
    var n := FirstSlash(tail);
    var size, rest := ValueOf(tail[..n]), tail[n + 1..];
    CanonicalReprints(tail[..n]);
    assert tail == tail[..n] + "/" + rest;
    assert rest == rest[..size] + "/" + rest[size + 1..];
  }

  /** An import's name is the source name of a channel that spells its tail. */
  lemma {:induction false} ImportNameIsSourceName(i: Import)
    ensures ImportName(i) == SourceName(i.owner, i.account, Tail(i.channel, i.legend))
  {
  }

  /** The declaration reads back out of its name. */
  lemma {:induction false} ImportReadsBack(i: Import)
    ensures ReadImport(ImportName(i)) == Some(i)
  {
    ImportNameIsSourceName(i);
    SourceReadsBack(Source(i.owner, i.account, Tail(i.channel, i.legend)));
    TailReadsBack(i.channel, i.legend);
  }

  /** The reader accepts nothing but names of declarations. */
  lemma {:induction false} ReadImportIsStrict(name: string)
    ensures ReadImport(name).Some? <==> exists i :: ImportName(i) == name
    ensures ReadImport(name).Some? ==> ImportName(ReadImport(name).value) == name
  {
    if ReadImport(name).Some? {
      SourceReprints(name);
      TailReprints(ReadSource(name).value.channel);
      ImportNameIsSourceName(ReadImport(name).value);
      assert ImportName(ReadImport(name).value) == name;
    }
    if i :| ImportName(i) == name {
      ImportReadsBack(i);
    }
  }

  /** Two declarations share a name only if they are the same declaration. */
  lemma {:induction false} ImportNameIsInjective(i: Import, j: Import)
    ensures ImportName(i) == ImportName(j) <==> i == j
  {
    ImportReadsBack(i);
    ImportReadsBack(j);
  }

  lemma {:induction false} SourceNameIsInjective(s: Source, t: Source)
    ensures SourceName(s.owner, s.account, s.channel) == SourceName(t.owner, t.account, t.channel) <==> s == t
  {
    SourceReadsBack(s);
    SourceReadsBack(t);
  }

  /** A source name and an import name can be one text, which is why each kind of
      identity is derived in a namespace of its own: it happens exactly for a source
      whose channel spells an import's tail. */
  lemma {:induction false} NamesOfTwoKindsMeetIff(s: Source, i: Import)
    ensures SourceName(s.owner, s.account, s.channel) == ImportName(i)
       <==> s == Source(i.owner, i.account, Tail(i.channel, i.legend))
  {
    ImportNameIsSourceName(i);
    SourceNameIsInjective(s, Source(i.owner, i.account, Tail(i.channel, i.legend)));
  }

  // ---- Why the length is part of the name --------------------------------------------

  /** The name an import would have without the channel's length. */
  function NameWithoutLength(i: Import): string {
    i.owner + "/" + i.account + "/" + i.channel + "/" + i.legend
  }

  /** The longer channel carries a slash that the shorter one leaves to its label. */
  predicate Slides(i: Import, j: Import) {
    && |i.channel| < |j.channel|
    && j.channel[..|i.channel|] == i.channel && j.channel[|i.channel|] == '/'
    && i.legend == j.channel[|i.channel| + 1..] + "/" + j.legend
  }

  lemma {:induction false} SlidingJoins(i: Import, j: Import)
    requires Slides(i, j)
    ensures i.channel + "/" + i.legend == j.channel + "/" + j.legend
  {
    assert j.channel == i.channel + "/" + j.channel[|i.channel| + 1..];
  }

  lemma {:induction false} JoinsSlide(i: Import, j: Import)
    requires i.channel + "/" + i.legend == j.channel + "/" + j.legend && |i.channel| <= |j.channel|
    ensures Slides(i, j) || (i.channel == j.channel && i.legend == j.legend)
  {
    var whole := i.channel + "/" + i.legend;
    assert whole == j.channel + "/" + j.legend;
    var n, m := |i.channel|, |j.channel|;
    assert whole[..n] == i.channel && whole[..m] == j.channel;
    assert whole[n] == '/' && whole[n + 1..] == i.legend && whole[m + 1..] == j.legend;
    if n < m {
      assert j.channel[..n] == whole[..n];
      assert j.channel[n] == whole[n];
      assert whole[n + 1..] == whole[n + 1..m] + whole[m..m + 1] + whole[m + 1..];
      assert j.channel[n + 1..] == whole[n + 1..m];
    }
  }

  /** Without the length two declarations share a name exactly when they agree, or
      one's channel ends where the other's still has a slash to come. */
  lemma {:induction false} WithoutLengthCollidesIff(i: Import, j: Import)
    ensures NameWithoutLength(i) == NameWithoutLength(j)
       <==> i.owner == j.owner && i.account == j.account && (i == j || Slides(i, j) || Slides(j, i))
  {
    var s := Source(i.owner, i.account, i.channel + "/" + i.legend);
    var t := Source(j.owner, j.account, j.channel + "/" + j.legend);
    SourceNameIsInjective(s, t);
    assert NameWithoutLength(i) == SourceName(s.owner, s.account, s.channel);
    assert NameWithoutLength(j) == SourceName(t.owner, t.account, t.channel);
    if s == t {
      if |i.channel| <= |j.channel| {
        JoinsSlide(i, j);
      } else {
        JoinsSlide(j, i);
      }
    }
    if Slides(i, j) {
      SlidingJoins(i, j);
    }
    if Slides(j, i) {
      SlidingJoins(j, i);
    }
  }

  /** The pair the source names: `file/x` with label `y`, and `file` with label `x/y`. */
  lemma {:induction false} WithoutLengthTwoImportsShareAName(owner: Id, account: Id)
    ensures var i, j := Import(owner, account, "file", "x/y"), Import(owner, account, "file/x", "y");
      NameWithoutLength(i) == NameWithoutLength(j) && ImportName(i) != ImportName(j)
  {
    var i, j := Import(owner, account, "file", "x/y"), Import(owner, account, "file/x", "y");
    assert j.channel[..4] == i.channel;
    assert j.channel[5..] == "x";
    WithoutLengthCollidesIff(i, j);
    ImportNameIsInjective(i, j);
  }
}
