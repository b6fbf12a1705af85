/** encode_morse and decode_morse: the lossy transcoding between text and
    Morse patterns. Like the original functions, both take the table they
    use as an argument: encode_morse the character-to-code dictionary,
    decode_morse its flip. */
module MorseCodec {
  import opened MorseTable
  import opened Text

  /** What the round trip needs of a table: it can be flipped, space is
      coded by the word separator "/", every other key by a signal. */
  predicate Reversible(m: map<char, string>) {
    Injective(m) && ' ' in m && m[' '] == "/" &&
    forall c :: c in m && c != ' ' ==> IsSignal(m[c])
  }

  /** The messenger's table meets what the round trip needs. */
  lemma MorseMapReversible()
    ensures Reversible(MorseMap())
  {
    MorseMapShape();
    MorseMapInjective();
  }

  /** The token of one upper-cased character: its code, or the placeholder
      "?" when the character is not in the table. */
  function EncodeChar(c: char, m: map<char, string>): string
  {
    if c in m then m[c] else "?"
  }

  /** The tokens the foreach loop of encode_morse collects, one per character. */
  function Tokens(s: string, m: map<char, string>): (toks: seq<string>)
    ensures |toks| == |s|
    ensures forall i :: 0 <= i < |s| ==> toks[i] == EncodeChar(s[i], m)
  {
    if s == [] then [] else [EncodeChar(s[0], m)] + Tokens(s[1..], m)
  }

  /** encode_morse($text, $map): the upper-cased text, one token per
      character, joined by single spaces. */
  function Encode(text: string, m: map<char, string>): string
  {
    Implode(Tokens(Upper(text), m))
  }

  /** The character one token decodes to: a space for "/", the flipped
      table's character for a known code, '#' for anything else. */
  function DecodeToken(p: string, rev: map<string, char>): char
  {
    if p == "/" then ' '
    else if p in rev then rev[p]
    else '#'
  }

  /** The characters the foreach loop of decode_morse appends, one per token. */
  function DecodeTokens(parts: seq<string>, rev: map<string, char>): (r: string)
    ensures |r| == |parts|
    ensures forall i :: 0 <= i < |parts| ==> r[i] == DecodeToken(parts[i], rev)
  {
    if parts == [] then "" else [DecodeToken(parts[0], rev)] + DecodeTokens(parts[1..], rev)
  }

  /** decode_morse($morse, $rev): one character per whitespace-separated
      token of the trimmed input. Never empty: the split yields a token even
      for an empty input. */
  function Decode(morse: string, rev: map<string, char>): (r: string)
    ensures |r| >= 1
  {
    DecodeTokens(Split(Trim(morse)), rev)
  }

  /** encode_morse as written: a loop collecting tokens, then one implode. */
  method EncodeMorse(text: string, m: map<char, string>) returns (r: string)
    ensures r == Encode(text, m)
  {
    var upper := Upper(text);
    var out: seq<string> := [];
    var i := 0;
    while i < |upper|
      invariant 0 <= i <= |upper|
      invariant |out| == i
      invariant forall k :: 0 <= k < i ==> out[k] == EncodeChar(upper[k], m)
    {
      var code := if upper[i] in m then m[upper[i]] else "?";
      out := out + [code];
      i := i + 1;
    }
    assert out == Tokens(upper, m);
    r := Implode(out);
  }

  /** decode_morse as written: split, then a loop appending one character
      per token. */
  method DecodeMorse(morse: string, rev: map<string, char>) returns (out: string)
    ensures out == Decode(morse, rev)
  {
    var parts := Split(Trim(morse));
    out := "";
    var i := 0;
    while i < |parts|
      invariant 0 <= i <= |parts|
      invariant |out| == i
      invariant forall k :: 0 <= k < i ==> out[k] == DecodeToken(parts[k], rev)
    {
      var p := parts[i];
      var ch: char;
      if p == "/" {
        ch := ' ';
      } else if p in rev {
        ch := rev[p];
      } else {
        ch := '#';
      }
      out := out + [ch];
      i := i + 1;
    }
    assert out == DecodeTokens(parts, rev);
  }

  /** Every token the encoder emits is non-empty and free of whitespace of
      either kind. */
  lemma {:induction false} EncodeCharShape(c: char, m: map<char, string>)
    requires Reversible(m)
    ensures var t := EncodeChar(c, m);
      t != [] && NoRegexSpace(t) && !IsTrimSpace(t[0]) && !IsTrimSpace(t[|t| - 1])
  {
    var t := EncodeChar(c, m);
    if c in m && c != ' ' {
      assert t[0] == '.' || t[0] == '-';
      assert t[|t| - 1] == '.' || t[|t| - 1] == '-';
    }
  }

  /** The encoding is empty exactly for the empty text. */
  lemma EncodeEmpty(text: string, m: map<char, string>)
    requires Reversible(m)
    ensures Encode(text, m) == [] <==> text == []
  {
    var toks := Tokens(Upper(text), m);
    if text != [] {
      forall k | 0 <= k < |toks| ensures toks[k] != [] {
        EncodeCharShape(Upper(text)[k], m);
      }
      ImplodeEnds(toks);
    }
  }

  /** The encoding (the per-character tokens, which Implode separates by
      single spaces) has no surrounding whitespace and splits back into the
      tokens. */
  lemma EncodeSplits(text: string, m: map<char, string>)
    requires Reversible(m)
    requires text != []
    ensures Trim(Encode(text, m)) == Encode(text, m)
    ensures Split(Encode(text, m)) == Tokens(Upper(text), m)
  {
    var toks := Tokens(Upper(text), m);
    forall k | 0 <= k < |toks|
      ensures toks[k] != [] && NoRegexSpace(toks[k])
      ensures !IsTrimSpace(toks[k][0]) && !IsTrimSpace(toks[k][|toks[k]| - 1])
    {
      EncodeCharShape(Upper(text)[k], m);
    }
    ImplodeEnds(toks);
    TrimTrimmed(Encode(text, m));
    SplitImplode(toks);
  }

  /** Case does not matter to the encoder. */
  lemma EncodeIgnoresCase(text: string, m: map<char, string>)
    ensures Encode(text, m) == Encode(Upper(text), m)
  {
    UpperIdempotent(text);
  }

  /** One character's round trip: a key of the table comes back, anything
      else comes back as '#'. */
  lemma CharRoundTrip(c: char, m: map<char, string>)
    requires Reversible(m)
    ensures DecodeToken(EncodeChar(c, m), Flip(m)) == if c in m then c else '#'
  {
    var rev := Flip(m);
    if c in m {
      if c != ' ' {
        assert m[c] != "/" by { assert m[c][0] != '/'; }
        assert m[c] in rev && rev[m[c]] == c;
      }
    }
  }

  /** What a non-empty text reads as after a round trip: each character
      upper-cased, and '#' in place of every character outside the table. */
  lemma RoundTrip(text: string, m: map<char, string>)
    requires Reversible(m)
    requires text != []
    ensures |Decode(Encode(text, m), Flip(m))| == |text|
    ensures forall i :: 0 <= i < |text| ==>
      Decode(Encode(text, m), Flip(m))[i] ==
        (if UpperChar(text[i]) in m then UpperChar(text[i]) else '#')
  {
    var rev := Flip(m);
    var toks := Tokens(Upper(text), m);
    EncodeSplits(text, m);
    assert Decode(Encode(text, m), rev) == DecodeTokens(toks, rev);
    forall i | 0 <= i < |text|
      ensures DecodeTokens(toks, rev)[i] ==
              (if UpperChar(text[i]) in m then UpperChar(text[i]) else '#')
    {
      assert toks[i] == EncodeChar(UpperChar(text[i]), m);
      CharRoundTrip(UpperChar(text[i]), m);
    }
  }

  /** For a non-empty text over the 48 characters of the messenger's table,
      decoding undoes encoding. */
  lemma MorseRoundTrip(text: string)
    requires text != []
    requires forall i :: 0 <= i < |text| ==> text[i] in MorseMap()
    ensures Decode(Encode(text, MorseMap()), RevMap()) == text
  {
    MorseMapReversible();
    MorseMapShape();
    RoundTrip(text, MorseMap());
  }

  /** A lone token: "/" and only "/" gives a space, a code gives the one
      character coded by it, and everything else gives '#'. */
  lemma DecodeTokenMeaning(p: string, m: map<char, string>)
    requires Reversible(m)
    ensures DecodeToken(p, Flip(m)) == ' ' <==> p == "/"
    ensures DecodeToken(p, Flip(m)) != '#' ==>
      DecodeToken(p, Flip(m)) in m && m[DecodeToken(p, Flip(m))] == p
    ensures forall c :: c in m && m[c] == p ==> DecodeToken(p, Flip(m)) == c
  {
    var rev := Flip(m);
    forall c | c in m && m[c] == p
      ensures DecodeToken(p, rev) == c
    {
      CharRoundTrip(c, m);
    }
  }

  /** The "?" placeholder is no code of the table, so it decodes to '#',
      while a character with a code of its own survives. */
  lemma PlaceholderIsNoCode(m: map<char, string>)
    requires Reversible(m)
    ensures DecodeToken("?", Flip(m)) == '#'
    ensures '?' in m ==> DecodeToken(EncodeChar('?', m), Flip(m)) == '?'
  {
    DecodeTokenMeaning("?", m);
    CharRoundTrip('?', m);
  }

  /** The empty token is no code of a reversible table: it decodes to '#'. */
  lemma EmptyTokenIsNoCode(m: map<char, string>)
    requires Reversible(m)
    ensures DecodeToken("", Flip(m)) == '#'
  {
    forall c | c in m
      ensures m[c] != ""
    {
      if c != ' ' {
        assert IsSignal(m[c]);
      }
    }
  }

  /** The empty text encodes to the empty string, which decodes to "#":
      the round trip fails on the empty text. */
  lemma EmptyRoundTrip(m: map<char, string>)
    requires Reversible(m)
    ensures Encode("", m) == ""
    ensures Decode("", Flip(m)) == "#"
  {
    assert Split(Trim("")) == [""];
    EmptyTokenIsNoCode(m);
  }

  /** An input made only of trim characters decodes to "#". */
  lemma DecodeBlank(morse: string, m: map<char, string>)
    requires Reversible(m)
    requires forall k :: 0 <= k < |morse| ==> IsTrimSpace(morse[k])
    ensures Decode(morse, Flip(m)) == "#"
  {
    assert Trim(morse) == [];
    assert Split([]) == [""];
    EmptyTokenIsNoCode(m);
  }

  /** A form feed is \s for the split but not a trim character: alone it
      splits into two empty tokens. */
  lemma FormFeedTokens(rev: map<string, char>)
    ensures Decode("\U{000C}", rev) == DecodeTokens(["", ""], rev)
  {
    var ff := "\U{000C}";
    TrimTrimmed(ff);
    assert Split(Trim(ff)) == ["", ""] by {
      assert SkipSpaces(ff) == [];
    }
  }

  /** So a lone form feed decodes to "##". */
  lemma DecodeFormFeed(m: map<char, string>)
    requires Reversible(m)
    ensures Decode("\U{000C}", Flip(m)) == "##"
  {
    var rev := Flip(m);
    FormFeedTokens(rev);
    EmptyTokenIsNoCode(m);
    var r := DecodeTokens(["", ""], rev);
    assert r[0] == '#' && r[1] == '#';
  }

  /** "SOS" encodes to "... --- ..." and comes back unchanged. */
  lemma SosScenario()
    ensures Encode("SOS", MorseMap()) == "... --- ..."
    ensures Decode("... --- ...", RevMap()) == "SOS"
  {
    var m := MorseMap();
    MorseMapShape();
    assert Entry('S') == "..." && Entry('O') == "---";
    assert Upper("SOS") == "SOS";
    assert Tokens("SOS", m) == ["...", "---", "..."];
    assert Implode(["...", "---", "..."]) == "... --- ...";
    MorseRoundTrip("SOS");
  }

  /** The decoder does not depend on how the tokens are separated: any runs
      of whitespace between them (tabs, line breaks, several spaces) read the
      same as the single spaces the encoder puts there. */
  lemma DecodeAnySeparators(text: string, m: map<char, string>, gaps: seq<string>)
    requires Reversible(m) && text != []
    requires |gaps| == |text| - 1
    requires forall k :: 0 <= k < |gaps| ==> IsGap(gaps[k])
    ensures Decode(Join(Tokens(Upper(text), m), gaps), Flip(m)) == Decode(Encode(text, m), Flip(m))
  {
    var toks := Tokens(Upper(text), m);
    forall k | 0 <= k < |toks|
      ensures toks[k] != [] && NoRegexSpace(toks[k])
      ensures !IsTrimSpace(toks[k][0]) && !IsTrimSpace(toks[k][|toks[k]| - 1])
    {
      EncodeCharShape(Upper(text)[k], m);
    }
    var rev := Flip(m);
    var joined := Join(toks, gaps);
    assert Split(Trim(joined)) == toks by {
      JoinEnds(toks, gaps);
      TrimTrimmed(joined);
      SplitJoin(toks, gaps);
    }
    assert Split(Trim(Encode(text, m))) == toks by {
      EncodeSplits(text, m);
    }
    assert Decode(joined, rev) == DecodeTokens(toks, rev);
  }

  /** The tokens of `SOS` under the messenger's table. */
  lemma SosTokens()
    ensures Tokens(Upper("SOS"), MorseMap()) == ["...", "---", "..."]
  {
    MorseMapShape();
    assert Entry('S') == "..." && Entry('O') == "---";
    assert Upper("SOS") == "SOS";
  }

  /** `SOS` typed with tabs and double spaces between the signals reads the
      same as the encoder's `... --- ...`. */
  lemma SosTabsReadAsSpaces()
    ensures Decode("...\t\t---  ...", RevMap()) == Decode(Encode("SOS", MorseMap()), RevMap())
  {
    var gaps := ["\t\t", "  "];
    assert "...\t\t---  ..." == Join(Tokens(Upper("SOS"), MorseMap()), gaps) by {
      SosTokens();
      assert Join(["...", "---", "..."], gaps) == "...\t\t---  ...";
    }
    MorseMapReversible();
    DecodeAnySeparators("SOS", MorseMap(), gaps);
  }

  /** The same input with the line break a text area adds at the end still
      decodes to `SOS`. */
  lemma SosWithTabsScenario()
    ensures Decode("...\t\t---  ...\n", RevMap()) == "SOS"
  {
    var core := "...\t\t---  ...";
    assert Decode(core + ['\n'], RevMap()) == Decode(core, RevMap()) by {
      TrimDropsTrailing(core, '\n');
    }
    assert core + ['\n'] == "...\t\t---  ...\n";
    SosTabsReadAsSpaces();
    SosScenario();
  }
}
