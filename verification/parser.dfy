/**
  The lexer of `src/parser.rs`: a `Separator` that cuts source text into
  fragments, and a `Tokenizer` that classifies each fragment as a `Token`.

  The Rust iterators keep a cursor `i` into a `Vec<char>`; here every call
  to `next` is a pure function of the characters and the cursor, returning
  the item (if any) together with the new cursor.
*/
module Parser {
  import opened Wrappers

  // ---------------------------------------------------------------------
  // Character classes
  // ---------------------------------------------------------------------

  /** Spaces and tabs separate fragments (a newline is an ordinary character). */
  predicate IsBlank(c: char) {
    c == ' ' || c == '\t'
  }

  /** The punctuation characters that always form a fragment of their own. */
  predicate IsPunct(c: char) {
    c == '=' || c == ',' || c == ';' || c == '(' || c == ')'
  }

  predicate BlankBetween(s: string, lo: nat, hi: nat)
    requires lo <= hi <= |s|
  {
    forall k :: lo <= k < hi ==> IsBlank(s[k])
  }

  predicate PunctFree(w: string) {
    forall k :: 0 <= k < |w| ==> !IsPunct(w[k])
  }

  /** A one-character fragment made of a punctuation character. */
  predicate IsPunctWord(w: string) {
    |w| == 1 && IsPunct(w[0])
  }

  /** Number of `"` characters in `s`. */
  function QuoteCount(s: string): nat {
    if s == [] then 0
    else QuoteCount(s[..|s| - 1]) + (if s[|s| - 1] == '"' then 1 else 0)
  }

  /** After reading `s`, an odd number of `"` leaves the separator in quoted mode. */
  predicate InQuote(s: string) {
    QuoteCount(s) % 2 == 1
  }

  /** Every space or tab of `w` is preceded, inside `w`, by an odd number of `"`. */
  predicate BlanksQuoted(w: string) {
    forall k :: 0 <= k < |w| && IsBlank(w[k]) ==> InQuote(w[..k])
  }

  lemma QuoteCountAppend(w: string, c: char)
    ensures QuoteCount(w + [c]) == QuoteCount(w) + (if c == '"' then 1 else 0)
  {
    assert (w + [c])[..|w|] == w;
  }

  lemma BlanksQuotedAppend(w: string, c: char)
    requires IsBlank(c) ==> InQuote(w)
    ensures BlanksQuoted(w) ==> BlanksQuoted(w + [c])
  {
    if BlanksQuoted(w) {
      forall k | 0 <= k < |w + [c]| && IsBlank((w + [c])[k])
      ensures InQuote((w + [c])[..k])
    {
      if k < |w| {
        assert (w + [c])[..k] == w[..k];
      } else {
        assert (w + [c])[..k] == w;
      }
    }
    }
  }

  /** The first position at or after `i` that does not hold a space or tab. */
  function SkipBlanks(src: string, i: nat): (r: nat)
    requires i <= |src|
    decreases |src| - i
    ensures i <= r <= |src|
    ensures BlankBetween(src, i, r)
    ensures r < |src| ==> !IsBlank(src[r])
  {
    if i < |src| && IsBlank(src[i]) then SkipBlanks(src, i + 1) else i
  }

  // ---------------------------------------------------------------------
  // Separator::next (src/parser.rs:45-75)
  // ---------------------------------------------------------------------

  /**
    The loop of `Separator::next`, from cursor `i` with the fragment read so
    far (`word`) and the quoted-mode flag. Returns the fragment and the
    cursor where the loop stopped.
  */
  function Scan(src: string, i: nat, word: string, quoted: bool): (r: (string, nat))
    requires i <= |src|
    requires quoted == InQuote(word)
    decreases |src| - i
    // the cursor only moves forward and stays within the input
    ensures i <= r.1 <= |src|
  {
    if i == |src| then (word, i)
    else
      var c := src[i];
      assert src[i..i + 1] == [c];
      if IsBlank(c) then
        if quoted then
          QuoteCountAppend(word, c);
          Scan(src, i + 1, word + [c], quoted)
        else if word != [] then (word, i)
        else Scan(src, i + 1, word, quoted)
      else if IsPunct(c) then
        if word == [] then (word + [c], i + 1) else (word, i)
      else if c == '"' then
        QuoteCountAppend(word, c);
        Scan(src, i + 1, word + [c], !quoted)
      else
        QuoteCountAppend(word, c);
        Scan(src, i + 1, word + [c], quoted)
  }

  /** Extending a word by one character and then by the rest of a slice extends it by the slice. */
  lemma SliceCons(src: string, i: nat, j: nat, word: string)
    requires i < j <= |src|
    ensures word + [src[i]] + src[i + 1..j] == word + src[i..j]
  {
    assert src[i..j] == [src[i]] + src[i + 1..j];
  }

  /**
    The fragment is the word read so far extended by a contiguous slice of
    the input; only blanks before its first character are skipped.
  */
  lemma {:induction false} ScanSlice(src: string, i: nat, word: string, quoted: bool)
    requires i <= |src|
    requires quoted == InQuote(word)
    decreases |src| - i
    ensures var r := Scan(src, i, word, quoted);
      var k := if word == [] then SkipBlanks(src, i) else i;
      k <= r.1 && r.0 == word + src[k..r.1]
  {
    if i < |src| {
      var c := src[i];
      QuoteCountAppend(word, c);
      if IsBlank(c) && !quoted && word == [] {
        assert SkipBlanks(src, i) == SkipBlanks(src, i + 1);
        assert Scan(src, i, word, quoted) == Scan(src, i + 1, word, quoted);
        ScanSlice(src, i + 1, word, quoted);
      } else if !IsPunct(c) && !(IsBlank(c) && !quoted) {
        assert word == [] ==> SkipBlanks(src, i) == i;
        ScanAppends(src, i, word, quoted);
        ScanSlice(src, i + 1, word + [c], InQuote(word + [c]));
        SliceCons(src, i, Scan(src, i + 1, word + [c], InQuote(word + [c])).1, word);
      } else if IsPunct(c) && word == [] {
        assert src[i..i + 1] == [c];
        assert SkipBlanks(src, i) == i;
        assert Scan(src, i, word, quoted) == ([c], i + 1);
      } else {
        ScanCloses(src, i, word);
        assert word + src[i..i] == word;
      }
    } else {
      assert word + src[i..i] == word;
    }
  }

  /** Nothing is produced exactly when nothing was read and only blanks remain. */
  lemma {:induction false} ScanEmpty(src: string, i: nat, word: string, quoted: bool)
    requires i <= |src|
    requires quoted == InQuote(word)
    decreases |src| - i
    ensures var r := Scan(src, i, word, quoted);
      (r.0 == [] <==> word == [] && BlankBetween(src, i, |src|)) && (r.0 == [] ==> r.1 == |src|)
  {
    if i < |src| {
      var c := src[i];
      QuoteCountAppend(word, c);
      if IsBlank(c) && !quoted && word == [] {
        ScanEmpty(src, i + 1, word, quoted);
      } else if !IsPunct(c) && !(IsBlank(c) && !quoted) {
        ScanAppends(src, i, word, quoted);
        ScanEmpty(src, i + 1, word + [c], InQuote(word + [c]));
      }
    }
  }

  /** A blank enters the fragment only while the quoted mode is on. */
  lemma {:induction false} ScanQuotes(src: string, i: nat, word: string, quoted: bool)
    requires i <= |src|
    requires quoted == InQuote(word)
    requires BlanksQuoted(word)
    decreases |src| - i
    ensures BlanksQuoted(Scan(src, i, word, quoted).0)
  {
    if i < |src| {
      var c := src[i];
      QuoteCountAppend(word, c);
      if IsBlank(c) && !quoted && word == [] {
        ScanQuotes(src, i + 1, word, quoted);
      } else if !IsPunct(c) && !(IsBlank(c) && !quoted) {
        ScanAppends(src, i, word, quoted);
        BlanksQuotedAppend(word, c);
        ScanQuotes(src, i + 1, word + [c], InQuote(word + [c]));
      }
    }
  }

  /** Punctuation only ever forms a fragment of its own. */
  lemma {:induction false} ScanPunct(src: string, i: nat, word: string, quoted: bool)
    requires i <= |src|
    requires quoted == InQuote(word)
    requires PunctFree(word)
    decreases |src| - i
    ensures var w := Scan(src, i, word, quoted).0;
      (word == [] ==> PunctFree(w) || IsPunctWord(w)) && (word != [] ==> PunctFree(w))
  {
    if i < |src| {
      var c := src[i];
      QuoteCountAppend(word, c);
      if IsBlank(c) && !quoted && word == [] {
        ScanPunct(src, i + 1, word, quoted);
      } else if !IsPunct(c) && !(IsBlank(c) && !quoted) {
        ScanAppends(src, i, word, quoted);
        assert PunctFree(word + [c]);
        ScanPunct(src, i + 1, word + [c], InQuote(word + [c]));
      }
    }
  }

  /** A word stops in front of an unquoted blank or a punctuation character, or at the end. */
  lemma {:induction false} ScanStop(src: string, i: nat, word: string, quoted: bool)
    requires i <= |src|
    requires quoted == InQuote(word)
    decreases |src| - i
    ensures var r := Scan(src, i, word, quoted);
      r.0 != [] && PunctFree(r.0) && r.1 < |src| ==>
        IsPunct(src[r.1]) || (IsBlank(src[r.1]) && !InQuote(r.0))
  {
    if i < |src| {
      var c := src[i];
      QuoteCountAppend(word, c);
      if IsBlank(c) && !quoted && word == [] {
        ScanStop(src, i + 1, word, quoted);
      } else if !IsPunct(c) && !(IsBlank(c) && !quoted) {
        ScanAppends(src, i, word, quoted);
        ScanStop(src, i + 1, word + [c], InQuote(word + [c]));
      }
    }
  }

  /**
    `Separator::next`: the next fragment from cursor `i`, or `None` when
    only blanks remain, with the cursor after the call.
  */
  function SeparatorNext(src: string, i: nat): (r: (Option<string>, nat))
    requires i <= |src|
    ensures r.0.None? <==> BlankBetween(src, i, |src|)
    ensures r.0.None? ==> r.1 == |src|
    ensures r.0.Some? ==> i < r.1 <= |src| && r.0.value != []
  {
    var (word, j) := Scan(src, i, [], false);
    ScanEmpty(src, i, [], false);
    ScanSlice(src, i, [], false);
    if word == [] then (None, j) else (Some(word), j)
  }

  /**
    The shape of a fragment: a slice of the input after the skipped blanks,
    whose blanks are all quoted, that is a lone punctuation character or
    holds none, and that stops in front of an unquoted blank or a
    punctuation character when it does not reach the end.
  */
  lemma SeparatorNextShape(src: string, i: nat)
    requires i <= |src|
    ensures var r := SeparatorNext(src, i);
      r.0.Some? ==>
        && SkipBlanks(src, i) < r.1
        && r.0.value == src[SkipBlanks(src, i)..r.1]
        && BlanksQuoted(r.0.value)
        && (PunctFree(r.0.value) || IsPunctWord(r.0.value))
        && (PunctFree(r.0.value) && r.1 < |src| ==>
              IsPunct(src[r.1]) || (IsBlank(src[r.1]) && !InQuote(r.0.value)))
  {
    ScanSlice(src, i, [], false);
    ScanQuotes(src, i, [], false);
    ScanPunct(src, i, [], false);
    ScanStop(src, i, [], false);
  }

  /**
    When a word stops in front of a punctuation character, that character is
    left unread and the next call returns it as a fragment of its own.
  */
  lemma PunctuationLeftForNextCall(src: string, i: nat)
    requires i <= |src|
    requires SeparatorNext(src, i).0.Some?
    requires SeparatorNext(src, i).1 < |src| && IsPunct(src[SeparatorNext(src, i).1])
    requires PunctFree(SeparatorNext(src, i).0.value)
    ensures var j := SeparatorNext(src, i).1;
      SeparatorNext(src, j) == (Some([src[j]]), j + 1)
  {
    PunctNext(src, SeparatorNext(src, i).1, SeparatorNext(src, i).1);
  }

  // ---------------------------------------------------------------------
  // Separator::new(src).collect()
  // ---------------------------------------------------------------------

  /** All fragments from cursor `i` on, as the iterator yields them. */
  function SeparateFrom(src: string, i: nat): (r: seq<string>)
    requires i <= |src|
    decreases |src| - i
    ensures r == [] <==> BlankBetween(src, i, |src|)
  {
    match SeparatorNext(src, i)
    case (None, _) => []
    case (Some(w), j) => [w] + SeparateFrom(src, j)
  }

  /** Every fragment of the stream has the shape of a fragment. */
  lemma {:induction false} SeparateFromFragments(src: string, i: nat)
    requires i <= |src|
    decreases |src| - i
    ensures forall k :: 0 <= k < |SeparateFrom(src, i)| ==> IsFragment(SeparateFrom(src, i)[k])
  {
    match SeparatorNext(src, i)
    case (None, _) =>
    case (Some(w), j) =>
      SeparatorNextShape(src, i);
      SeparateFromFragments(src, j);
      var k := SkipBlanks(src, i);
      assert w[0] == src[k];
      assert IsFragment(w);
  }

  function Separate(src: string): seq<string> {
    SeparateFrom(src, 0)
  }

  /** `src` with every space and tab removed. */
  function Strip(s: string): (r: string)
    ensures forall k :: 0 <= k < |r| ==> !IsBlank(r[k])
  {
    if s == [] then []
    else (if IsBlank(s[0]) then [] else [s[0]]) + Strip(s[1..])
  }

  function Concat(ws: seq<string>): string {
    if ws == [] then [] else ws[0] + Concat(ws[1..])
  }

  lemma {:induction false} StripAppend(a: string, b: string)
    ensures Strip(a + b) == Strip(a) + Strip(b)
  {
    if a == [] {
      assert a + b == b;
    } else {
      assert (a + b)[1..] == a[1..] + b;
      StripAppend(a[1..], b);
    }
  }

  lemma {:induction false} StripBlanks(s: string)
    requires BlankBetween(s, 0, |s|)
    ensures Strip(s) == []
  {
    if s != [] {
      StripBlanks(s[1..]);
    }
  }

  /**
    Conservation: apart from spaces and tabs, the fragments hold exactly the
    characters of the input, in order; none is dropped or duplicated.
  */
  lemma {:induction false} SeparateFromConserves(src: string, i: nat)
    requires i <= |src|
    decreases |src| - i
    ensures Strip(Concat(SeparateFrom(src, i))) == Strip(src[i..])
  {
    match SeparatorNext(src, i)
    case (None, _) =>
      assert BlankBetween(src[i..], 0, |src[i..]|);
      StripBlanks(src[i..]);
    case (Some(w), j) =>
      var rest := SeparateFrom(src, j);
      assert SeparateFrom(src, i) == [w] + rest;
      assert Concat([w] + rest) == w + Concat(rest);
      StripAppend(w, Concat(rest));
      SeparateFromConserves(src, j);
      SeparatorNextShape(src, i);
      StripFragment(src, i, SkipBlanks(src, i), j);
  }

  /** Cutting a fragment off the input after skipping blanks keeps the non-blank characters. */
  lemma StripFragment(src: string, i: nat, k: nat, j: nat)
    requires i <= k <= j <= |src|
    requires BlankBetween(src, i, k)
    ensures Strip(src[i..]) == Strip(src[k..j]) + Strip(src[j..])
  {
    assert src[i..] == src[i..k] + src[k..j] + src[j..];
    assert BlankBetween(src[i..k], 0, |src[i..k]|);
    StripBlanks(src[i..k]);
    StripAppend(src[i..k], src[k..j]);
    StripAppend(src[i..k] + src[k..j], src[j..]);
  }

  lemma SeparateConserves(src: string)
    ensures Strip(Concat(Separate(src))) == Strip(src)
  {
    SeparateFromConserves(src, 0);
    assert src[0..] == src;
  }

  /** Input made only of spaces and tabs has no fragments. */
  lemma SeparateBlankInput(src: string)
    ensures Separate(src) == [] <==> BlankBetween(src, 0, |src|)
  {
  }

  // ---------------------------------------------------------------------
  // Exactly which strings are single fragments
  // ---------------------------------------------------------------------

  /**
    The shape of every fragment the separator can yield: a lone punctuation
    character, or a punctuation-free word that does not start with a blank
    and whose blanks all sit inside quotes.
  */
  predicate IsFragment(w: string) {
    IsPunctWord(w) || (w != [] && !IsBlank(w[0]) && PunctFree(w) && BlanksQuoted(w))
  }

  /** One step of the loop that appends the character under the cursor. */
  lemma ScanAppends(src: string, i: nat, word: string, quoted: bool)
    requires i < |src|
    requires quoted == InQuote(word)
    requires !IsPunct(src[i])
    requires IsBlank(src[i]) ==> quoted
    ensures Scan(src, i, word, quoted) == Scan(src, i + 1, word + [src[i]], InQuote(word + [src[i]]))
  {
    QuoteCountAppend(word, src[i]);
  }

  /**
    A run of punctuation-free characters whose blanks all fall inside quotes
    is appended to the fragment whole.
  */
  lemma {:induction false} ScanRun(src: string, i: nat, word: string, j: nat)
    requires i <= j <= |src|
    requires PunctFree(src[i..j])
    requires BlanksQuoted(word + src[i..j])
    decreases j - i
    ensures Scan(src, i, word, InQuote(word)) == Scan(src, j, word + src[i..j], InQuote(word + src[i..j]))
  {
    if i == j {
      assert word + src[i..j] == word;
    } else {
      var c := src[i];
      var w := word + src[i..j];
      assert w[|word|] == c && w[..|word|] == word;
      assert src[i..j][0] == c;
      ScanAppends(src, i, word, InQuote(word));
      assert src[i..j] == [c] + src[i + 1..j];
      assert word + [c] + src[i + 1..j] == w;
      assert src[i + 1..j] == src[i..j][1..];
      ScanRun(src, i + 1, word + [c], j);
    }
  }

  /** A non-empty fragment is closed by the end of input, an unquoted blank or punctuation. */
  lemma ScanCloses(src: string, j: nat, word: string)
    requires j <= |src|
    requires word != []
    requires j == |src| || IsPunct(src[j]) || (IsBlank(src[j]) && !InQuote(word))
    ensures Scan(src, j, word, InQuote(word)) == (word, j)
  {
  }

  /** Blanks before the first character of a fragment are skipped. */
  lemma {:induction false} ScanSkips(src: string, i: nat)
    requires i <= |src|
    decreases |src| - i
    ensures Scan(src, i, [], false) == Scan(src, SkipBlanks(src, i), [], false)
  {
    if i < |src| && IsBlank(src[i]) {
      assert !InQuote([]);
      ScanSkips(src, i + 1);
    }
  }

  /** Scanning the rest of a well-shaped word consumes all of it. */
  lemma ScanWhole(w: string, i: nat)
    requires 0 < i <= |w|
    requires PunctFree(w) && BlanksQuoted(w)
    ensures Scan(w, i, w[..i], InQuote(w[..i])) == (w, |w|)
  {
    assert w[..i] + w[i..|w|] == w;
    assert PunctFree(w[i..|w|]);
    ScanRun(w, i, w[..i], |w|);
    ScanCloses(w, |w|, w);
  }

  /**
    Conversely to `SeparatorNextShape`: a fragment-shaped slice after blanks
    that ends where the loop stops is exactly what the next call returns.
  */
  lemma WordNext(src: string, p: nat, i: nat, j: nat)
    requires p <= i < j <= |src|
    requires BlankBetween(src, p, i)
    requires IsFragment(src[i..j]) && !IsPunctWord(src[i..j])
    requires j == |src| || IsPunct(src[j]) || (IsBlank(src[j]) && !InQuote(src[i..j]))
    ensures SeparatorNext(src, p) == (Some(src[i..j]), j)
  {
    var w := src[i..j];
    assert w[0] == src[i];
    SkipBlanksPast(src, p, i);
    ScanSkips(src, p);
    assert [] + w == w;
    assert !InQuote([]);
    ScanRun(src, i, [], j);
    ScanCloses(src, j, w);
  }

  /** A word of ordinary characters after blanks is returned whole. */
  lemma PlainWordNext(src: string, p: nat, i: nat, j: nat)
    requires p <= i < j <= |src|
    requires BlankBetween(src, p, i)
    requires forall k :: i <= k < j ==> !IsBlank(src[k]) && !IsPunct(src[k]) && src[k] != '"'
    requires j == |src| || IsBlank(src[j]) || IsPunct(src[j])
    ensures SeparatorNext(src, p) == (Some(src[i..j]), j)
  {
    var w := src[i..j];
    assert PunctFree(w) && BlanksQuoted(w);
    QuoteCountNone(w);
    WordNext(src, p, i, j);
  }

  /** A punctuation character after blanks is returned alone. */
  lemma PunctNext(src: string, p: nat, i: nat)
    requires p <= i < |src|
    requires BlankBetween(src, p, i)
    requires IsPunct(src[i])
    ensures SeparatorNext(src, p) == (Some([src[i]]), i + 1)
  {
    SkipBlanksPast(src, p, i);
    ScanSkips(src, p);
    assert !InQuote([]);
    assert [] + [src[i]] == [src[i]];
  }

  lemma {:induction false} SkipBlanksPast(src: string, p: nat, i: nat)
    requires p <= i < |src|
    requires BlankBetween(src, p, i)
    requires !IsBlank(src[i])
    decreases i - p
    ensures SkipBlanks(src, p) == i
  {
    if p < i {
      SkipBlanksPast(src, p + 1, i);
    }
  }

  lemma FragmentSeparatesAlone(w: string)
    requires IsFragment(w)
    ensures Separate(w) == [w]
  {
    if IsPunctWord(w) {
      assert [] + [w[0]] == w;
      assert !InQuote([]);
      assert Scan(w, 0, [], false) == (w, 1);
    } else {
      assert [] + [w[0]] == w[..1];
      ScanAppends(w, 0, [], false);
      ScanWhole(w, 1);
    }
    assert SeparatorNext(w, 0) == (Some(w), SeparatorNext(w, 0).1);
    assert SeparateFrom(w, |w|) == [];
  }

  lemma AloneIsFragment(w: string)
    requires Separate(w) == [w]
    ensures IsFragment(w)
  {
    var (f, j) := SeparatorNext(w, 0);
    SeparatorNextShape(w, 0);
    assert SeparateFrom(w, 0) == [w];
    assert f.Some?;
    assert SeparateFrom(w, 0) == [f.value] + SeparateFrom(w, j);
    assert ([f.value] + SeparateFrom(w, j))[0] == f.value;
    assert f.value == w;
    var k := SkipBlanks(w, 0);
    assert w == w[k..j];
  }

  /** A string is separated into itself alone exactly when it has the shape of a fragment. */
  lemma SeparateSingle(w: string)
    ensures Separate(w) == [w] <==> IsFragment(w)
  {
    if IsFragment(w) {
      FragmentSeparatesAlone(w);
    }
    if Separate(w) == [w] {
      AloneIsFragment(w);
    }
  }

  // ---------------------------------------------------------------------
  // Tokens (src/parser.rs:1-14) and Tokenizer::next (src/parser.rs:81-101)
  // ---------------------------------------------------------------------

  datatype Constant = True | False | Nil | String(s: string)

  datatype Token = Equal | Name(name: string) | Constant(c: Constant)

  predicate IsKeyword(w: string) {
    w == "=" || w == "true" || w == "false" || w == "nil"
  }

  /** A `Name` token the tokenizer can produce. */
  predicate IsName(w: string) {
    IsFragment(w) && !IsKeyword(w) && w[0] != '"'
  }

  /** The classification of one fragment. */
  function Classify(w: string): (r: Token)
    // a fragment that opens with a quote is a string constant: drop the
    // opening quote, then the last character when one remains
    ensures r.Constant? && r.c.String? <==> |w| > 0 && w[0] == '"'
    ensures r.Constant? && r.c.String? && |w| >= 2 ==> w == ['"'] + r.c.s + [w[|w| - 1]]
    ensures r.Constant? && r.c.String? && |w| < 2 ==> r.c.s == []
    // the four keywords
    ensures r == Equal <==> w == "="
    ensures r == Token.Constant(Constant.True) <==> w == "true"
    ensures r == Token.Constant(Constant.False) <==> w == "false"
    ensures r == Token.Constant(Constant.Nil) <==> w == "nil"
    // everything else is a name, kept verbatim
    ensures r.Name? <==> !IsKeyword(w) && (|w| == 0 || w[0] != '"')
    ensures r.Name? ==> r.name == w
  {
    if |w| > 0 && w[0] == '"' then
      var t := w[1..];
      var s := if |t| > 0 then t[..|t| - 1] else t;
      assert |t| > 0 ==> w == ['"'] + s + [w[|w| - 1]];
      Token.Constant(Constant.String(s))
    else if w == "=" then Equal
    else if w == "true" then Token.Constant(Constant.True)
    else if w == "false" then Token.Constant(Constant.False)
    else if w == "nil" then Token.Constant(Constant.Nil)
    else Name(w)
  }

  /** `Tokenizer::next`: classify the next fragment, if there is one. */
  function TokenizerNext(src: string, i: nat): (r: (Option<Token>, nat))
    requires i <= |src|
    ensures r.0.None? <==> BlankBetween(src, i, |src|)
    ensures r.0.Some? ==> i < r.1 <= |src|
    ensures r.0.Some? && r.0.value.Name? ==> IsName(r.0.value.name)
  {
    SeparatorNextShape(src, i);
    match SeparatorNext(src, i)
    case (None, j) => (None, j)
    case (Some(w), j) => (Some(Classify(w)), j)
  }

  /** All tokens from cursor `i` on, as the iterator yields them. */
  function TokenizeFrom(src: string, i: nat): (r: seq<Token>)
    requires i <= |src|
    decreases |src| - i
    ensures forall k :: 0 <= k < |r| && r[k].Name? ==> IsName(r[k].name)
  {
    match TokenizerNext(src, i)
    case (None, _) => []
    case (Some(t), j) => [t] + TokenizeFrom(src, j)
  }

  function Tokenize(src: string): seq<Token> {
    TokenizeFrom(src, 0)
  }

  /** One token per fragment: the token stream is the fragment stream, classified. */
  lemma {:induction false} TokenizeFromIsClassifiedSeparate(src: string, i: nat)
    requires i <= |src|
    decreases |src| - i
    ensures |TokenizeFrom(src, i)| == |SeparateFrom(src, i)|
    ensures forall k :: 0 <= k < |TokenizeFrom(src, i)| ==>
      TokenizeFrom(src, i)[k] == Classify(SeparateFrom(src, i)[k])
  {
    match SeparatorNext(src, i)
    case (None, _) =>
    case (Some(w), j) =>
      var ts := TokenizeFrom(src, j);
      var fs := SeparateFrom(src, j);
      assert TokenizerNext(src, i) == (Some(Classify(w)), j);
      assert TokenizeFrom(src, i) == [Classify(w)] + ts;
      assert SeparateFrom(src, i) == [w] + fs;
      TokenizeFromIsClassifiedSeparate(src, j);
      forall k | 0 <= k < |TokenizeFrom(src, i)|
        ensures TokenizeFrom(src, i)[k] == Classify(SeparateFrom(src, i)[k])
      {
        if k > 0 {
          assert ([Classify(w)] + ts)[k] == ts[k - 1];
          assert ([w] + fs)[k] == fs[k - 1];
        }
      }
  }

  lemma TokenizeIsClassifiedSeparate(src: string)
    ensures |Tokenize(src)| == |Separate(src)|
    ensures forall k :: 0 <= k < |Tokenize(src)| ==> Tokenize(src)[k] == Classify(Separate(src)[k])
  {
    TokenizeFromIsClassifiedSeparate(src, 0);
  }

  // ---------------------------------------------------------------------
  // Round trip through a textual rendering of tokens
  // ---------------------------------------------------------------------

  /** Source text for a token. */
  function Render(t: Token): string {
    match t
    case Equal => "="
    case Name(n) => n
    case Constant(True) => "true"
    case Constant(False) => "false"
    case Constant(Nil) => "nil"
    case Constant(String(s)) => ['"'] + s + ['"']
  }

  /** Tokens that can be written as one fragment: strings free of quotes and punctuation, and names. */
  predicate Renderable(t: Token) {
    match t
    case Name(n) => IsName(n)
    case Constant(String(s)) => PunctFree(s) && forall k :: 0 <= k < |s| ==> s[k] != '"'
    case _ => true
  }

  lemma QuoteCountNone(s: string)
    requires forall k :: 0 <= k < |s| ==> s[k] != '"'
    ensures QuoteCount(s) == 0
  {
    if s != [] {
      QuoteCountNone(s[..|s| - 1]);
    }
  }

  lemma RenderIsFragment(t: Token)
    requires Renderable(t)
    ensures IsFragment(Render(t))
  {
    match t
    case Constant(String(s)) =>
      var w := ['"'] + s + ['"'];
      forall k | 0 <= k < |w| && IsBlank(w[k])
        ensures InQuote(w[..k])
      {
        assert 1 <= k <= |s|;
        assert w[..k] == ['"'] + s[..k - 1];
        QuoteCountNone(s[..k - 1]);
        QuoteCountAppendFront(s[..k - 1]);
      }
    case _ =>
  }

  lemma {:induction false} QuoteCountAppendFront(s: string)
    ensures QuoteCount(['"'] + s) == QuoteCount(s) + 1
  {
    if s != [] {
      var p := s[..|s| - 1];
      assert (['"'] + s)[..|s|] == ['"'] + p;
      QuoteCountAppendFront(p);
    }
  }

  /** Tokenizing the rendering of a renderable token gives back exactly that token. */
  lemma TokenizeRender(t: Token)
    requires Renderable(t)
    ensures Tokenize(Render(t)) == [t]
  {
    RenderIsFragment(t);
    SeparateSingle(Render(t));
    TokenizeIsClassifiedSeparate(Render(t));
    match t
    case Constant(String(s)) =>
      var w := ['"'] + s + ['"'];
      assert w[1..] == s + ['"'];
      assert (s + ['"'])[..|s|] == s;
    case _ =>
  }

  // ---------------------------------------------------------------------
  // Behaviour on concrete inputs
  // ---------------------------------------------------------------------

  /** The fragment stream after a plain word: the word, then whatever follows it. */
  lemma PlainWordSeparates(src: string, p: nat, i: nat, j: nat)
    requires p <= i < j <= |src|
    requires BlankBetween(src, p, i)
    requires forall k :: i <= k < j ==> !IsBlank(src[k]) && !IsPunct(src[k]) && src[k] != '"'
    requires j == |src| || IsBlank(src[j]) || IsPunct(src[j])
    ensures SeparateFrom(src, p) == [src[i..j]] + SeparateFrom(src, j)
  {
    PlainWordNext(src, p, i, j);
  }

  lemma WordSeparates(src: string, p: nat, i: nat, j: nat)
    requires p <= i < j <= |src|
    requires BlankBetween(src, p, i)
    requires IsFragment(src[i..j]) && !IsPunctWord(src[i..j])
    requires j == |src| || IsPunct(src[j]) || (IsBlank(src[j]) && !InQuote(src[i..j]))
    ensures SeparateFrom(src, p) == [src[i..j]] + SeparateFrom(src, j)
  {
    WordNext(src, p, i, j);
  }

  lemma PunctSeparates(src: string, p: nat, i: nat)
    requires p <= i < |src|
    requires BlankBetween(src, p, i)
    requires IsPunct(src[i])
    ensures SeparateFrom(src, p) == [[src[i]]] + SeparateFrom(src, i + 1)
  {
    PunctNext(src, p, i);
  }

  // The steps of the example below, one fragment at a time, from the end.

  predicate IsExampleInput(src: string) {
    src == "x=true\t\ty = false"
  }

  lemma ExampleFrom11(src: string)
    requires IsExampleInput(src)
    ensures SeparateFrom(src, 11) == ["false"]
  {
    assert SeparateFrom(src, 17) == [];
    PlainWordSeparates(src, 11, 12, 17);
    assert src[12..17] == "false";
  }

  lemma ExampleFrom9(src: string)
    requires IsExampleInput(src)
    ensures SeparateFrom(src, 9) == ["=", "false"]
  {
    PunctSeparates(src, 9, 10);
    ExampleFrom11(src);
  }

  lemma ExampleFrom6(src: string)
    requires IsExampleInput(src)
    ensures SeparateFrom(src, 6) == ["y", "=", "false"]
  {
    assert src[8..9] == "y";
    PlainWordSeparates(src, 6, 8, 9);
    ExampleFrom9(src);
  }

  lemma ExampleFrom2(src: string)
    requires IsExampleInput(src)
    ensures SeparateFrom(src, 2) == ["true", "y", "=", "false"]
  {
    assert src[2..6] == "true";
    PlainWordSeparates(src, 2, 2, 6);
    ExampleFrom6(src);
  }

  lemma ExampleFrom1(src: string)
    requires IsExampleInput(src)
    ensures SeparateFrom(src, 1) == ["=", "true", "y", "=", "false"]
  {
    assert src[1] == '=';
    PunctSeparates(src, 1, 1);
    ExampleFrom2(src);
  }

  /** Two tabs and single spaces separate words; `=` stands alone (tests/lib.rs:6-7). */
  lemma SeparateExample(src: string)
    requires IsExampleInput(src)
    ensures Separate(src) == ["x", "=", "true", "y", "=", "false"]
  {
    assert src[0..1] == "x";
    PlainWordSeparates(src, 0, 0, 1);
    ExampleFrom1(src);
  }
  // Behaviour of the code as written, where it departs from a Lua-like lexer.

  /** A newline does not separate words, and `+` is not punctuation. */
  lemma NewlineAndPlusAreOrdinary()
    ensures Separate("a\nb") == ["a\nb"]
    ensures Separate("a+b") == ["a+b"]
  {
    FragmentSeparatesAlone("a\nb");
    FragmentSeparatesAlone("a+b");
  }

  /** The closing quote does not end the fragment, and quoted blanks are kept. */
  lemma ClosingQuoteDoesNotCloseFragment()
    ensures Separate("\"a\"b") == ["\"a\"b"]
    ensures Separate("\"a b\"") == ["\"a b\""]
  {
    FragmentSeparatesAlone("\"a\"b");
    assert QuoteCount("\"a b\""[..2]) == 1 by {
      assert "\"a b\""[..2] == "\"a";
      assert "\"a"[..1] == "\"";
      assert "\""[..0] == "";
    }
    FragmentSeparatesAlone("\"a b\"");
  }

  /** A single quote is an ordinary character: the blank inside `'a b'` separates. */
  lemma SingleQuoteIsOrdinary(src: string)
    requires src == "'a b'"
    ensures Separate(src) == ["'a", "b'"]
  {
    assert src[0..2] == "'a" && src[3..5] == "b'";
    PlainWordSeparates(src, 0, 0, 2);
    PlainWordSeparates(src, 2, 3, 5);
    assert SeparateFrom(src, 5) == [];
  }

  /**
    Punctuation ends a fragment even inside an open quote, and the quoted
    mode does not carry over to the next call.
  */
  lemma PunctuationBreaksQuotes(src: string)
    requires src == "\"a(b\""
    ensures Separate(src) == ["\"a", "(", "b\""]
  {
    assert src[0..2] == "\"a" && src[3..5] == "b\"" && src[2] == '(';
    assert QuoteCount("\"a") == 1 by {
      assert "\"a"[..1] == "\"";
      assert "\""[..0] == "";
    }
    assert IsFragment("\"a") && IsFragment("b\"");
    WordSeparates(src, 0, 0, 2);
    PunctSeparates(src, 2, 2);
    WordSeparates(src, 3, 3, 5);
    assert SeparateFrom(src, 5) == [];
  }
}
