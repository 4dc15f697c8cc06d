/**
 * The tokenizer of `cron/src/schedule/parser/tokens.rs`: a stream that
 * starts with a Start token, accepts each character only when the token
 * before it allows it as a successor, ends with an End token, and keeps a
 * table from token id to the character it came from.
 */
module Tokens {
  import opened Wrappers
  import Parser

  /** The kinds of token a stream holds. */
  datatype Kind = Start | Number | Letter | Comma | Hyphen | Asterisk | Slash | End

  /** A token: its kind and its id (the position of its character, counted from 1). */
  datatype Token = Token(kind: Kind, id: nat)

  /** A table entry: the character a token came from and its byte position. */
  datatype Entry = Entry(value: char, pos: nat)

  /** `usize::MAX`, the id of the End token. */
  const USIZE_MAX: nat := 0xFFFF_FFFF_FFFF_FFFF

  /** The kind `Token::try_from` gives a character of a cron field. */
  function KindOf(c: char): (k: Kind)
    requires Parser.IsTokenChar(c)
    ensures k != Start && k != End
    ensures k == Number <==> Parser.IsDigit(c)
    ensures k == Letter <==> Parser.IsAsciiLetter(c)
  {
    if Parser.IsDigit(c) then Number
    else if Parser.IsAsciiLetter(c) then Letter
    else if c == ',' then Comma
    else if c == '/' then Slash
    else if c == '*' then Asterisk
    else Hyphen
  }

  /** The `is_next_valid` tables: which kind may follow which. */
  predicate IsNextValid(prev: Kind, next: Kind)
  {
    match prev
    case Start => next in {Number, Letter, Asterisk, End}
    case Number => next in {Number, Comma, Hyphen, End}
    case Letter => next in {Letter, Hyphen, End}
    case Comma | Hyphen => next in {Number, Letter}
    case Asterisk => next in {Slash, End}
    case Slash => next == Number
    case End => false
  }

  /** Nothing follows End and nothing is followed by Start; only Start, Number, Letter and Asterisk may end a stream. */
  lemma TransitionShape(k: Kind)
    ensures !IsNextValid(End, k) && !IsNextValid(k, Start)
    ensures IsNextValid(k, End) <==> k in {Start, Number, Letter, Asterisk}
    ensures k != End ==> exists next :: IsNextValid(k, next)
  {
    if k != End {
      assert IsNextValid(k, if k in {Comma, Hyphen, Slash} then Number else End);
    }
  }

  /**
   * The outcome of tokenizing `s` from its `i`-th character on, after a
   * token of kind `prev`: InvalidToken at a character of no kind or one
   * `prev` does not allow, BadEnd when `prev` may not end the stream.
   */
  function ScanFrom(s: string, i: nat, prev: Kind): (e: Option<Parser.ParseError>)
    requires i <= |s|
    ensures e.Some? ==> e.value in {Parser.InvalidToken, Parser.BadEnd}
    decreases |s| - i
  {
    if i == |s| then
      if IsNextValid(prev, End) then None else Some(Parser.BadEnd)
    else if !Parser.IsTokenChar(s[i]) || !IsNextValid(prev, KindOf(s[i])) then Some(Parser.InvalidToken)
    else ScanFrom(s, i + 1, KindOf(s[i]))
  }

  function TokenizeError(s: string): Option<Parser.ParseError>
  {
    ScanFrom(s, 0, Start)
  }

  predicate AllTokenChars(s: string)
  {
    forall j :: 0 <= j < |s| ==> Parser.IsTokenChar(s[j])
  }

  /** The kinds of the characters of `s`, in order. */
  function KindsOf(s: string): (ks: seq<Kind>)
    requires AllTokenChars(s)
    ensures |ks| == |s|
    ensures forall j :: 0 <= j < |s| ==> ks[j] == KindOf(s[j])
  {
    if |s| == 0 then [] else [KindOf(s[0])] + KindsOf(s[1..])
  }

  /** Every kind in the sequence allows the one after it. */
  predicate ValidChain(ks: seq<Kind>)
  {
    forall j :: 0 <= j < |ks| - 1 ==> IsNextValid(ks[j], ks[j + 1])
  }

  lemma ValidChainCons(k: Kind, rest: seq<Kind>)
    requires |rest| > 0
    ensures ValidChain([k] + rest) <==> IsNextValid(k, rest[0]) && ValidChain(rest)
  {
    var ks := [k] + rest;
    if IsNextValid(k, rest[0]) && ValidChain(rest) {
      forall j | 0 <= j < |ks| - 1
        ensures IsNextValid(ks[j], ks[j + 1])
      {
        if j > 0 {
          assert ks[j] == rest[j - 1] && ks[j + 1] == rest[j];
        }
      }
    }
    if ValidChain(ks) {
      assert ks[0] == k && ks[1] == rest[0];
      forall j | 0 <= j < |rest| - 1
        ensures IsNextValid(rest[j], rest[j + 1])
      {
        assert ks[j + 1] == rest[j] && ks[j + 2] == rest[j + 1];
      }
    }
  }

  /**
   * The scan from position `i` succeeds exactly when every remaining
   * character has a kind and the chain from `prev` through those kinds to
   * End is allowed at every step.
   */
  lemma {:induction false} ScanFromAccepts(s: string, i: nat, prev: Kind)
    requires i <= |s|
    ensures ScanFrom(s, i, prev).None? <==>
      AllTokenChars(s[i..]) && ValidChain([prev] + KindsOf(s[i..]) + [End])
    decreases |s| - i
  {
    if i == |s| {
      assert s[i..] == [];
      var chain := [prev] + KindsOf(s[i..]) + [End];
      assert chain == [prev, End];
      assert ValidChain(chain) <==> IsNextValid(chain[0], chain[1]);
    } else {
      var rest := s[i..];
      assert rest[0] == s[i] && rest[1..] == s[i + 1..];
      AllTokenCharsCons(rest);
      if Parser.IsTokenChar(s[i]) {
        ScanFromAccepts(s, i + 1, KindOf(s[i]));
        if AllTokenChars(s[i + 1..]) {
          KindsOfCons(rest);
          var tail := [KindOf(s[i])] + KindsOf(s[i + 1..]) + [End];
          assert [prev] + KindsOf(rest) + [End] == [prev] + tail;
          ValidChainCons(prev, tail);
        }
      }
    }
  }

  lemma AllTokenCharsCons(s: string)
    requires |s| > 0
    ensures AllTokenChars(s) <==> Parser.IsTokenChar(s[0]) && AllTokenChars(s[1..])
  {
    if Parser.IsTokenChar(s[0]) && AllTokenChars(s[1..]) {
      forall j | 0 <= j < |s|
        ensures Parser.IsTokenChar(s[j])
      {
        if j > 0 {
          assert s[j] == s[1..][j - 1];
        }
      }
    }
  }

  lemma KindsOfCons(s: string)
    requires |s| > 0 && AllTokenChars(s)
    ensures AllTokenChars(s[1..]) && KindsOf(s) == [KindOf(s[0])] + KindsOf(s[1..])
  {
  }

  /**
   * Tokenizing succeeds exactly when every character is a token character
   * and Start, the characters' kinds and End form an allowed chain.  In
   * particular the empty input is accepted.
   */
  lemma TokenizeAccepts(s: string)
    ensures TokenizeError(s).None? <==> AllTokenChars(s) && ValidChain([Start] + KindsOf(s) + [End])
  {
    ScanFromAccepts(s, 0, Start);
    assert s[0..] == s;
  }

  /** The tokens of an accepted input before End: Start with id 0, then one per character with ids from 1. */
  function TokensOf(s: string): (ts: seq<Token>)
    requires AllTokenChars(s)
    ensures |ts| == |s| + 1 && ts[0] == Token(Start, 0)
    ensures forall j :: 0 <= j < |s| ==> ts[j + 1] == Token(KindOf(s[j]), j + 1)
  {
    if |s| == 0 then [Token(Start, 0)] else TokensOf(s[..|s| - 1]) + [Token(KindOf(s[|s| - 1]), |s|)]
  }

  /**
   * The table of an accepted input: id `k` holds the `k`-th character and
   * its position.  Every accepted character is ASCII, one byte long, so
   * its byte position is its index.
   */
  function TableOf(s: string): (t: map<nat, Entry>)
    ensures forall k :: k in t <==> 1 <= k <= |s|
    ensures forall j :: 0 <= j < |s| ==> t[j + 1] == Entry(s[j], j)
  {
    if |s| == 0 then map[] else TableOf(s[..|s| - 1])[|s| := Entry(s[|s| - 1], |s| - 1)]
  }

  /** What `to_string` yields: the table's character for each token whose id has an entry, in token order. */
  function Render(tokens: seq<Token>, table: map<nat, Entry>): string
  {
    if |tokens| == 0 then ""
    else
      var t := tokens[|tokens| - 1];
      Render(tokens[..|tokens| - 1], table) + (if t.id in table then [table[t.id].value] else [])
  }

  /** One more accepted character adds one token and one table entry, under a fresh id. */
  lemma PrefixStep(s: string, i: nat)
    requires i < |s| && AllTokenChars(s[..i]) && Parser.IsTokenChar(s[i])
    ensures AllTokenChars(s[..i + 1])
    ensures TokensOf(s[..i + 1]) == TokensOf(s[..i]) + [Token(KindOf(s[i]), i + 1)]
    ensures i + 1 !in TableOf(s[..i])
    ensures TableOf(s[..i + 1]) == TableOf(s[..i])[i + 1 := Entry(s[i], i)]
  {
    assert s[..i + 1][..i] == s[..i] && s[..i + 1][i] == s[i];
  }

  /** The tokens of a prefix, rendered through the table of the whole input, give back the prefix. */
  lemma {:induction false} RenderPrefix(s: string, i: nat)
    requires AllTokenChars(s) && i <= |s|
    ensures AllTokenChars(s[..i]) && Render(TokensOf(s[..i]), TableOf(s)) == s[..i]
  {
    if i > 0 {
      RenderPrefix(s, i - 1);
      PrefixStep(s, i - 1);
      var ts := TokensOf(s[..i]);
      assert ts[..|ts| - 1] == TokensOf(s[..i - 1]);
      assert TableOf(s)[i] == Entry(s[i - 1], i - 1);
      assert Render(ts, TableOf(s)) == Render(TokensOf(s[..i - 1]), TableOf(s)) + [s[i - 1]];
      assert s[..i - 1] + [s[i - 1]] == s[..i];
    }
  }

  /**
   * For every accepted input, `to_string` of the stream gives the input
   * back: Start and End have no table entry, and every other token maps to
   * its own character.
   */
  lemma {:induction false} RoundTrip(s: string)
    requires AllTokenChars(s) && |s| < USIZE_MAX
    ensures Render(TokensOf(s) + [Token(End, USIZE_MAX)], TableOf(s)) == s
  {
    RenderPrefix(s, |s|);
    assert s[..|s|] == s;
    assert (TokensOf(s) + [Token(End, USIZE_MAX)])[..|s| + 1] == TokensOf(s);
  }

  /** `TokenStream`: the tokens so far and the table from id to character. */
  class TokenStream {
    var tokens: seq<Token>
    var table: map<nat, Entry>

    /** `TokenStream::new`: only the Start token, with id 0, and an empty table. */
    constructor ()
      ensures tokens == [Token(Start, 0)] && table == map[]
    {
      tokens := [Token(Start, 0)];
      table := map[];
    }

    /** `is_valid`: the last token allows a token of this kind next. */
    predicate IsValid(kind: Kind)
      reads this
      requires |tokens| > 0
    {
      IsNextValid(tokens[|tokens| - 1].kind, kind)
    }

    /** `to_string`: the character of every token that has a table entry, in order. */
    method ToString() returns (out: string)
      ensures out == Render(tokens, table)
    {
      out := "";
      for i := 0 to |tokens|
        invariant out == Render(tokens[..i], table)
      {
        assert tokens[..i + 1][..i] == tokens[..i];
        var id := tokens[i].id;
        if id in table {
          out := out + [table[id].value];
        }
      }
      assert tokens[..|tokens|] == tokens;
    }
  }

  /**
   * `TokenStream::tokenize`: fails as `TokenizeError` says; otherwise the
   * stream holds Start, one token per character with ids from 1, and End,
   * and the table maps each id to its character.  The ids are fresh, so the
   * table's "unique ids" panic cannot happen.
   */
  method Tokenize(chars: string) returns (r: Result<TokenStream, Parser.ParseError>)
    requires |chars| < USIZE_MAX
    ensures r.Err? <==> TokenizeError(chars).Some?
    ensures r.Err? ==> r.error == TokenizeError(chars).value
    ensures r.Ok? ==>
      fresh(r.value) && AllTokenChars(chars) &&
      r.value.tokens == TokensOf(chars) + [Token(End, USIZE_MAX)] && r.value.table == TableOf(chars)
  {
    var stream := new TokenStream();
    var i := 0;
    while i < |chars|
      invariant 0 <= i <= |chars| && AllTokenChars(chars[..i])
      invariant stream.tokens == TokensOf(chars[..i]) && stream.table == TableOf(chars[..i])
      invariant TokenizeError(chars) == ScanFrom(chars, i, stream.tokens[|stream.tokens| - 1].kind)
    {
      var c := chars[i];
      if !Parser.IsTokenChar(c) {
        return Err(Parser.InvalidToken);
      }
      var token := Token(KindOf(c), i + 1);
      if !stream.IsValid(token.kind) {
        return Err(Parser.InvalidToken);
      }
      PrefixStep(chars, i);
      stream.table := stream.table[token.id := Entry(c, i)];
      stream.tokens := stream.tokens + [token];
      i := i + 1;
    }
    assert chars[..i] == chars;
    if !stream.IsValid(End) {
      return Err(Parser.BadEnd);
    }
    stream.tokens := stream.tokens + [Token(End, USIZE_MAX)];
    r := Ok(stream);
  }

  /** `to_string` on the stream `tokenize` built gives the input back. */
  method TokenizeThenToString(chars: string) returns (out: Option<string>)
    requires |chars| < USIZE_MAX
    ensures out.Some? <==> TokenizeError(chars).None?
    ensures out.Some? ==> out.value == chars
  {
    var r := Tokenize(chars);
    if r.Err? {
      return None;
    }
    var s := r.value.ToString();
    RoundTrip(chars);
    out := Some(s);
  }

  /** The inputs the module's tests accept: "*", "34", "8,3-3,34" and "4,5,9,10". */
  lemma AcceptedExamples()
    ensures TokenizeError("*").None? && TokenizeError("34").None?
    ensures TokenizeError("8,3-3,34").None? && TokenizeError("4,5,9,10").None?
    ensures TokenizeError("").None?
  {
  }

  /** The inputs the module's tests reject, and an input that stops after a hyphen. */
  lemma RejectedExamples()
    ensures TokenizeError("3qd939j-3rl/;f.") == Some(Parser.InvalidToken)
    ensures TokenizeError("*,3/,4") == Some(Parser.InvalidToken)
    ensures TokenizeError("3-") == Some(Parser.BadEnd)
  {
  }
}
