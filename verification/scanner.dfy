/**
 * The non-linguistic-symbol scan of `PhonemeTokenizer.text2tokens`: a left-to-right
 * pass over a shrinking line that, at each step, tries the configured symbols in
 * their iteration order and either consumes the first one the line starts with or
 * consumes a single character.
 */
module Scanner {
  import opened Results
  import opened Text

  /** Index of the first symbol, in iteration order, that `line` starts with. */
  function FirstMatch(symbols: seq<string>, line: string): (r: Option<nat>)
    ensures r.Some? ==> r.value < |symbols| && IsPrefix(symbols[r.value], line)
    ensures r.Some? ==> forall j :: 0 <= j < r.value ==> !IsPrefix(symbols[j], line)
    ensures r.None? <==> forall j :: 0 <= j < |symbols| ==> !IsPrefix(symbols[j], line)
  {
    if |symbols| == 0 then None
    else if IsPrefix(symbols[0], line) then Some(0)
    else
      match FirstMatch(symbols[1..], line)
      case None => None
      case Some(k) => Some(k + 1)
  }

  /**
   * What the scan loop ends with: the emitted pieces, or the remaining line at which
   * the loop stops making progress (the first matching symbol is the empty string,
   * so the line never shrinks again and the loop runs forever).
   */
  datatype ScanOutcome = Done(tokens: seq<string>) | Hangs(at: string)

  /** Pieces emitted before a further outcome. */
  function Then(emitted: seq<string>, rest: ScanOutcome): ScanOutcome
  {
    match rest
    case Done(tokens) => Done(emitted + tokens)
    case Hangs(at) => Hangs(at)
  }

  /** Emitting in two batches is emitting their concatenation. */
  lemma ThenThen(first: seq<string>, second: seq<string>, rest: ScanOutcome)
    ensures Then(first, Then(second, rest)) == Then(first + second, rest)
  {
    if rest.Done? {
      assert first + (second + rest.tokens) == (first + second) + rest.tokens;
    }
  }

  /** The scan, one step per recursive call. */
  function Scan(symbols: seq<string>, remove: bool, line: string): (r: ScanOutcome)
    ensures r.Done? ==> |r.tokens| <= |line|
    decreases |line|
  {
    if |line| == 0 then Done([])
    else
      match FirstMatch(symbols, line)
      case None => Then([line[..1]], Scan(symbols, remove, line[1..]))
      case Some(k) =>
        var w := symbols[k];
        if |w| == 0 then Hangs(line)
        else Then(if remove then [] else [line[..|w|]], Scan(symbols, remove, line[|w|..]))
  }

  /**
   * The loop of `text2tokens`: the inner `for ... else` with `break` becomes an inner
   * `while` over the symbol indexes. Where the source would loop forever the method
   * reports `Hangs`.
   */
  method ScanLoop(symbols: seq<string>, remove: bool, line: string) returns (r: ScanOutcome)
    ensures r == Scan(symbols, remove, line)
  {
    var tokens: seq<string> := [];
    var rest := line;
    while |rest| != 0
      invariant Scan(symbols, remove, line) == Then(tokens, Scan(symbols, remove, rest))
      decreases |rest|
    {
      var i := 0;
      while i < |symbols|
        invariant 0 <= i <= |symbols|
        invariant forall j :: 0 <= j < i ==> !IsPrefix(symbols[j], rest)
      {
        if IsPrefix(symbols[i], rest) {
          break;
        }
        i := i + 1;
      }
      if i < |symbols| {
        assert FirstMatch(symbols, rest) == Some(i);
        var w := symbols[i];
        if |w| == 0 {
          return Hangs(rest);
        }
        ThenThen(tokens, if remove then [] else [rest[..|w|]], Scan(symbols, remove, rest[|w|..]));
        if !remove {
          tokens := tokens + [rest[..|w|]];
        } else {
          assert tokens + [] == tokens;
        }
        rest := rest[|w|..];
      } else {
        assert FirstMatch(symbols, rest) == None;
        ThenThen(tokens, [rest[..1]], Scan(symbols, remove, rest[1..]));
        tokens := tokens + [rest[..1]];
        rest := rest[1..];
      }
    }
    r := Done(tokens);
  }

  /** Without an empty-string symbol every step consumes at least one character, so the scan finishes. */
  lemma {:induction false} ScanTerminates(symbols: seq<string>, remove: bool, line: string)
    requires "" !in symbols
    ensures Scan(symbols, remove, line).Done?
    decreases |line|
  {
    if |line| > 0 {
      match FirstMatch(symbols, line)
      case None =>
        ScanTerminates(symbols, remove, line[1..]);
      case Some(k) =>
        assert symbols[k] in symbols;
        ScanTerminates(symbols, remove, line[|symbols[k]|..]);
    }
  }

  /** An empty-string symbol that is tried first matches every non-empty line and consumes nothing. */
  lemma BlankSymbolFirstHangs(symbols: seq<string>, remove: bool, line: string)
    requires |symbols| > 0 && symbols[0] == "" && |line| > 0
    ensures Scan(symbols, remove, line) == Hangs(line)
  {
  }

  /**
   * The scan hangs only at a non-empty remainder of the line whose first matching
   * symbol is the empty string.
   */
  lemma {:induction false} ScanHangsAt(symbols: seq<string>, remove: bool, line: string)
    requires Scan(symbols, remove, line).Hangs?
    ensures var at := Scan(symbols, remove, line).at;
            0 < |at| <= |line| && at == line[|line| - |at|..] &&
            FirstMatch(symbols, at).Some? && symbols[FirstMatch(symbols, at).value] == ""
    decreases |line|
  {
    match FirstMatch(symbols, line)
    case None =>
      // An empty symbol would have matched, so none is empty and the scan cannot hang.
      ScanTerminates(symbols, remove, line);
      assert false;
    case Some(k) =>
      if |symbols[k]| > 0 {
        ScanHangsAt(symbols, remove, line[|symbols[k]|..]);
        SuffixOfSuffix(line, |symbols[k]|, Scan(symbols, remove, line[|symbols[k]|..]).at);
      }
  }

  /** A suffix of a suffix of the line is a suffix of the line. */
  lemma SuffixOfSuffix(line: string, n: nat, at: string)
    requires n <= |line| && |at| <= |line| - n
    requires at == line[n..][|line| - n - |at|..]
    ensures at == line[|line| - |at|..]
  {
  }

  /** The first symbol in iteration order wins, even over a longer one that also matches. */
  lemma FirstMatchNotLongest()
    ensures Scan(["<a", "<ab>"], false, "<ab>") == Done(["<a", "b", ">"])
    ensures Scan(["<ab>", "<a"], false, "<ab>") == Done(["<ab>"])
  {
    assert IsPrefix("<a", "<ab>");
    assert "b>"[..2][0] != "<a"[0];
    assert !IsPrefix("<a", "b>") && !IsPrefix("<ab>", "b>");
    assert !IsPrefix("<a", ">") && !IsPrefix("<ab>", ">");
    assert "<ab>"[2..] == "b>" && "b>"[1..] == ">" && ">"[1..] == "";
    assert "<ab>"[..2] == "<a" && "b>"[..1] == "b" && ">"[..1] == ">";
    assert "<ab>"[..4] == "<ab>" && "<ab>"[4..] == "";
  }

  /** With symbols kept, joining the pieces gives back the line exactly, whatever the symbols. */
  lemma {:induction false} ScanKeepsText(symbols: seq<string>, line: string)
    requires Scan(symbols, false, line).Done?
    ensures Concat(Scan(symbols, false, line).tokens) == line
    decreases |line|
  {
    if |line| > 0 {
      match FirstMatch(symbols, line)
      case None =>
        ScanKeepsText(symbols, line[1..]);
        ConcatAppend([line[..1]], Scan(symbols, false, line[1..]).tokens);
        assert line == line[..1] + line[1..];
      case Some(k) =>
        var w := symbols[k];
        ScanKeepsText(symbols, line[|w|..]);
        ConcatAppend([line[..|w|]], Scan(symbols, false, line[|w|..]).tokens);
        assert line == line[..|w|] + line[|w|..];
    }
  }

  /**
   * Every piece is either a non-empty configured symbol or a single character that is
   * not itself a symbol; with removal on, only such characters remain.
   */
  lemma {:induction false} ScanPieces(symbols: seq<string>, remove: bool, line: string)
    requires Scan(symbols, remove, line).Done?
    ensures forall t :: t in Scan(symbols, remove, line).tokens ==>
              (t in symbols && t != "" && !remove) || (|t| == 1 && t !in symbols)
    decreases |line|
  {
    if |line| > 0 {
      match FirstMatch(symbols, line)
      case None =>
        ScanPieces(symbols, remove, line[1..]);
        assert line[..1] !in symbols;
      case Some(k) =>
        ScanPieces(symbols, remove, line[|symbols[k]|..]);
    }
  }

  /** The tokens that are not configured symbols, in order. */
  function WithoutSymbols(tokens: seq<string>, symbols: seq<string>): (r: seq<string>)
    ensures forall t :: t in r ==> t in tokens && t !in symbols
    ensures forall t :: t in tokens && t !in symbols ==> t in r
  {
    if |tokens| == 0 then []
    else (if tokens[0] in symbols then [] else [tokens[0]]) + WithoutSymbols(tokens[1..], symbols)
  }

  /**
   * Removal on gives exactly the removal-off pieces with the symbol pieces deleted,
   * and hangs exactly where removal off hangs.
   */
  lemma {:induction false} ScanRemoveDeletesSymbols(symbols: seq<string>, line: string)
    ensures Scan(symbols, true, line) ==
            match Scan(symbols, false, line)
            case Done(tokens) => Done(WithoutSymbols(tokens, symbols))
            case Hangs(at) => Hangs(at)
    decreases |line|
  {
    if |line| > 0 {
      match FirstMatch(symbols, line)
      case None =>
        ScanRemoveDeletesSymbols(symbols, line[1..]);
        assert line[..1] !in symbols;
        var rest := Scan(symbols, false, line[1..]);
        if rest.Done? {
          assert ([line[..1]] + rest.tokens)[1..] == rest.tokens;
        }
      case Some(k) =>
        var w := symbols[k];
        if |w| > 0 {
          ScanRemoveDeletesSymbols(symbols, line[|w|..]);
          assert line[..|w|] == w;
          var rest := Scan(symbols, false, line[|w|..]);
          if rest.Done? {
            assert ([line[..|w|]] + rest.tokens)[1..] == rest.tokens;
          }
        }
    }
  }

  /**
   * With removal on, the reassembled text keeps the line's other characters in their
   * original order and is never longer than the line.
   */
  lemma {:induction false} ScanRemoveKeepsOrder(symbols: seq<string>, line: string)
    requires Scan(symbols, true, line).Done?
    ensures IsSubsequence(Concat(Scan(symbols, true, line).tokens), line)
    ensures |Concat(Scan(symbols, true, line).tokens)| <= |line|
    decreases |line|
  {
    var out := Concat(Scan(symbols, true, line).tokens);
    if |line| > 0 {
      match FirstMatch(symbols, line)
      case None =>
        var rest := Scan(symbols, true, line[1..]).tokens;
        ScanRemoveKeepsOrder(symbols, line[1..]);
        ConcatAppend([line[..1]], rest);
        assert out == [line[0]] + Concat(rest);
        assert out[1..] == Concat(rest) && out[0] == line[0];
      case Some(k) =>
        var w := symbols[k];
        ScanRemoveKeepsOrder(symbols, line[|w|..]);
        assert Scan(symbols, true, line).tokens == Scan(symbols, true, line[|w|..]).tokens;
        SubsequenceSkip(out, line[..|w|], line[|w|..]);
        assert line == line[..|w|] + line[|w|..];
    }
    SubsequenceLength(out, line);
  }

  /** When no configured symbol occurs in the line, the scan passes it through character by character. */
  lemma {:induction false} ScanWithoutSymbolsPassesThrough(symbols: seq<string>, remove: bool, line: string)
    requires forall w :: w in symbols ==> !OccursIn(w, line)
    ensures Scan(symbols, remove, line) == Done(Chars(line))
    ensures Concat(Scan(symbols, remove, line).tokens) == line
    decreases |line|
  {
    if |line| > 0 {
      assert FirstMatch(symbols, line).None? by {
        forall j | 0 <= j < |symbols|
          ensures !IsPrefix(symbols[j], line)
        {
          assert symbols[j] in symbols;
          assert line[0..] == line;
        }
      }
      forall w | w in symbols
        ensures !OccursIn(w, line[1..])
      {
        forall i | 0 <= i <= |line[1..]|
          ensures !IsPrefix(w, line[1..][i..])
        {
          assert line[1..][i..] == line[i + 1..];
        }
      }
      ScanWithoutSymbolsPassesThrough(symbols, remove, line[1..]);
      assert Chars(line) == [line[..1]] + Chars(line[1..]);
    }
  }
}
