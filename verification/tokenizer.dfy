/**
 * `PhonemeTokenizer`: the backend chosen once from the `g2p_type` key, and
 * `text2tokens`, which runs the non-linguistic-symbol scan, joins what it emitted
 * and hands the joined text to the backend.
 */
module Tokenizer {
  import opened Results
  import opened Text
  import opened G2p
  import opened Scanner

  /** The keys matched exactly, and the backend each selects. */
  const EXACT_KEYS: map<string, Backend> := map[
    "g2p_en" := G2pEnglish(false),
    "g2p_en_no_space" := G2pEnglish(true),
    "pyopenjtalk" := Pyopenjtalk,
    "pyopenjtalk_kana" := PyopenjtalkKana,
    "pypinyin_g2p" := PypinyinG2p,
    "pypinyin_g2p_phone" := PypinyinG2pPhone
  ]

  /** The language code when the key does not carry one. */
  const DEFAULT_LANG := "fr-fr"

  /**
   * The `espeak_g2p` an espeak key configures. An `espeak_arpabet` key takes its
   * language from the third `_`-separated field, any other espeak key from the second;
   * a key without that field gets the default.
   */
  function EspeakFromKey(g2pType: string): (e: EspeakG2p)
    ensures e.arpabet <==> IsPrefix("espeak_arpabet", g2pType)
  {
    if IsPrefix("espeak_arpabet", g2pType) then
      var fields := Split(g2pType, '_');
      EspeakG2p(if |fields| > 2 then fields[2] else DEFAULT_LANG, true)
    else
      EspeakG2p(if '_' in g2pType then Split(g2pType, '_')[1] else DEFAULT_LANG, false)
  }

  /**
   * The `g2p_type` dispatch of `PhonemeTokenizer.__init__`: the exact keys, then the
   * espeak prefixes, then an error naming the key. The source tests `espeak_arpabet`
   * before `espeak`; `EspeakFromKey` makes the same choice inside the `espeak` branch.
   */
  function Dispatch(g2pType: string): (r: Result<Backend, string>)
    ensures g2pType in EXACT_KEYS ==> r == Ok(EXACT_KEYS[g2pType])
    ensures IsPrefix("espeak", g2pType) ==> r == Ok(Espeak(EspeakFromKey(g2pType)))
    ensures g2pType !in EXACT_KEYS && !IsPrefix("espeak", g2pType) ==> r == Err("Not supported: g2p_type=" + g2pType)
  {
    assert IsPrefix("espeak", g2pType) ==> g2pType[0] == "espeak"[0];
    if g2pType == "g2p_en" then Ok(G2pEnglish(false))
    else if g2pType == "g2p_en_no_space" then Ok(G2pEnglish(true))
    else if g2pType == "pyopenjtalk" then Ok(Pyopenjtalk)
    else if g2pType == "pyopenjtalk_kana" then Ok(PyopenjtalkKana)
    else if g2pType == "pypinyin_g2p" then Ok(PypinyinG2p)
    else if g2pType == "pypinyin_g2p_phone" then Ok(PypinyinG2pPhone)
    else if IsPrefix("espeak", g2pType) then Ok(Espeak(EspeakFromKey(g2pType)))
    else Err("Not supported: g2p_type=" + g2pType)
  }

  /**
   * An espeak key that is not an `espeak_arpabet` key, with first field `head` (`espeak`,
   * `espeakng`, ...) and second field `lang`, alone or followed by more `_` fields, selects
   * plain espeak in that language.
   */
  lemma DispatchEspeakLang(head: string, lang: string, tail: string)
    requires IsPrefix("espeak", head) && '_' !in head
    requires '_' !in lang
    requires tail == "" || tail[0] == '_'
    requires !IsPrefix("espeak_arpabet", head + ['_'] + lang + tail)
    ensures Dispatch(head + ['_'] + lang + tail) == Ok(Espeak(EspeakG2p(lang, false)))
  {
    var key := head + ['_'] + lang + tail;
    assert IsPrefix("espeak", key) && '_' in key by {
      assert key[..6] == head[..6] && key[|head|] == '_';
    }
    assert |Split(key, '_')| >= 2 && Split(key, '_')[1] == lang by {
      SplitFirstFields(head, lang, tail, '_');
    }
    assert EspeakFromKey(key) == EspeakG2p(lang, false);
  }

  /**
   * An `espeak_arpabet` key with second field `variant` (`arpabet`, `arpabetx`, ...) and
   * third field `lang`, alone or followed by more `_` fields, selects ARPABET espeak in that
   * language.
   */
  lemma DispatchEspeakArpabetLang(variant: string, lang: string, tail: string)
    requires IsPrefix("arpabet", variant) && '_' !in variant
    requires '_' !in lang
    requires tail == "" || tail[0] == '_'
    ensures Dispatch("espeak_" + variant + ['_'] + lang + tail) == Ok(Espeak(EspeakG2p(lang, true)))
  {
    var key := "espeak_" + variant + ['_'] + lang + tail;
    assert IsPrefix("espeak_arpabet", key) && IsPrefix("espeak", key) by {
      assert key[..6] == "espeak" && key[6] == '_' && key[7..14] == variant[..7];
      assert key[..14] == "espeak_arpabet";
    }
    assert Split(key, '_')[2] == lang && |Split(key, '_')| > 2 by {
      assert key == "espeak" + ['_'] + (variant + ['_'] + lang + tail);
      SplitThirdField("espeak", variant, lang, tail, '_');
    }
    assert EspeakFromKey(key) == EspeakG2p(lang, true);
  }

  /** An espeak key without any `_` falls back to the default language. */
  lemma DispatchEspeakDefaultLang(g2pType: string)
    requires IsPrefix("espeak", g2pType) && '_' !in g2pType
    ensures Dispatch(g2pType) == Ok(Espeak(EspeakG2p(DEFAULT_LANG, false)))
  {
    assert !IsPrefix("espeak_arpabet", g2pType) by {
      if |g2pType| >= 7 {
        assert g2pType[6] != '_';
      }
    }
  }

  /** `espeak_arpabet` followed by no further `_` has only two fields and falls back to the default language. */
  lemma DispatchEspeakArpabetDefaultLang(suffix: string)
    requires '_' !in suffix
    ensures Dispatch("espeak_arpabet" + suffix) == Ok(Espeak(EspeakG2p(DEFAULT_LANG, true)))
  {
    var key := "espeak_arpabet" + suffix;
    assert IsPrefix("espeak_arpabet", key) && IsPrefix("espeak", key) by {
      assert key[..14] == "espeak_arpabet" && key[..6] == "espeak";
    }
    assert |Split(key, '_')| == 2 by {
      assert key == "espeak" + ['_'] + ("arpabet" + suffix);
      SplitAfterField("espeak", "arpabet" + suffix, '_');
      assert '_' !in "arpabet" + suffix;
      SplitNoSeparator("arpabet" + suffix, '_');
    }
    assert EspeakFromKey(key) == EspeakG2p(DEFAULT_LANG, true);
  }

  /** Why `text2tokens` gives no tokens. */
  datatype TokenizeError = ScanHangs(at: string) | BackendFailed(cause: G2pError)

  function Lift(r: Result<seq<string>, G2pError>): Result<seq<string>, TokenizeError>
  {
    match r
    case Ok(phones) => Ok(phones)
    case Err(e) => Err(BackendFailed(e))
  }

  class PhonemeTokenizer<M> {
    const g2pType: string
    const g2p: Backend
    /** The `G2p_en` wrapper, present exactly when `g2p` is one of the g2p_en backends. */
    const english: G2pEn?<M>
    /** Stored but never used by the scan or the join. */
    const spaceSymbol: string
    /** The symbol collection in its iteration order. */
    const nonLinguisticSymbols: seq<string>
    const removeNonLinguisticSymbols: bool

    ghost predicate Valid()
      reads this, english
    {
      && Dispatch(g2pType) == Ok(g2p)
      && (g2p.G2pEnglish? <==> english != null)
      && (english != null ==> english.noSpace == g2p.noSpace)
    }

    constructor (g2pType: string, g2p: Backend, symbols: seq<string>, spaceSymbol: string, remove: bool)
      requires Dispatch(g2pType) == Ok(g2p)
      ensures Valid()
      ensures this.g2pType == g2pType && this.g2p == g2p && this.spaceSymbol == spaceSymbol
      ensures nonLinguisticSymbols == symbols && removeNonLinguisticSymbols == remove
      ensures english != null ==> fresh(english) && english.g2p == None
    {
      this.g2pType := g2pType;
      this.g2p := g2p;
      this.spaceSymbol := spaceSymbol;
      nonLinguisticSymbols := symbols;
      removeNonLinguisticSymbols := remove;
      if g2p.G2pEnglish? {
        english := new G2pEn(g2p.noSpace);
      } else {
        english := null;
      }
    }

    /**
     * `PhonemeTokenizer.__init__`: an unsupported key is an error; no symbols means an
     * empty collection. The defaults are those of the Python signature.
     */
    static method Create(g2pType: string, symbols: Option<seq<string>> := None,
                         spaceSymbol: string := "<space>", remove: bool := false)
      returns (r: Result<PhonemeTokenizer<M>, string>)
      ensures r.Err? <==> Dispatch(g2pType).Err?
      ensures r.Err? ==> r.error == Dispatch(g2pType).error
      ensures r.Ok? ==> fresh(r.value) && r.value.Valid() && r.value.g2p == Dispatch(g2pType).value
      ensures r.Ok? ==> r.value.g2pType == g2pType && r.value.spaceSymbol == spaceSymbol
      ensures r.Ok? ==> r.value.removeNonLinguisticSymbols == remove
      ensures r.Ok? ==> r.value.nonLinguisticSymbols == (if symbols.Some? then symbols.value else [])
      ensures r.Ok? && r.value.english != null ==> fresh(r.value.english) && r.value.english.g2p == None
    {
      match Dispatch(g2pType)
      case Err(message) =>
        r := Err(message);
      case Ok(backend) =>
        var t := new PhonemeTokenizer(g2pType, backend, if symbols.Some? then symbols.value else [], spaceSymbol, remove);
        r := Ok(t);
    }

    /** The model a g2p_en backend runs with (any model for the other backends, which ignore it). */
    ghost function ActiveModel(libs: Libraries<M>): M
      reads this, english
    {
      if english != null && english.g2p.Some? then english.g2p.value else libs.newG2pEn
    }

    /** `PhonemeTokenizer.text2tokens` */
    method Text2Tokens(line: string, libs: Libraries<M>) returns (r: Result<seq<string>, TokenizeError>)
      requires Valid()
      modifies english
      ensures Valid()
      ensures Scan(nonLinguisticSymbols, removeNonLinguisticSymbols, line).Hangs? ==>
                && r == Err(ScanHangs(Scan(nonLinguisticSymbols, removeNonLinguisticSymbols, line).at))
                && (english != null ==> english.g2p == old(english.g2p))
      ensures Scan(nonLinguisticSymbols, removeNonLinguisticSymbols, line).Done? ==>
                && (english != null ==> english.g2p.Some?)
                && (english != null && old(english.g2p).Some? ==> english.g2p == old(english.g2p))
                && (english != null && old(english.g2p).None? ==> english.g2p == Some(libs.newG2pEn))
                && r == Lift(Convert(g2p, Concat(Scan(nonLinguisticSymbols, removeNonLinguisticSymbols, line).tokens),
                                     libs, ActiveModel(libs)))
    {
      var scanned := ScanLoop(nonLinguisticSymbols, removeNonLinguisticSymbols, line);
      match scanned
      case Hangs(at) =>
        r := Err(ScanHangs(at));
      case Done(tokens) =>
        var text := Concat(tokens);
        if english != null {
          var phones := english.Call(text, libs.newG2pEn, libs.g2pEn);
          r := Ok(phones);
        } else {
          r := Lift(Convert(g2p, text, libs, libs.newG2pEn));
        }
    }

    /**
     * `PhonemeTokenizer.tokens2text`: the tokens laid end to end, each right after the ones
     * before it, and nothing after the last.
     */
    function Tokens2Text(tokens: seq<string>): (r: string)
      ensures forall i :: 0 <= i < |tokens| ==> IsPrefix(Concat(tokens[..i]) + tokens[i], r)
      ensures |tokens| == 0 ==> r == ""
      ensures |tokens| > 0 ==> r == Concat(tokens[..|tokens| - 1]) + tokens[|tokens| - 1]
    {
      assert |tokens| > 0 ==> Concat(tokens) == Concat(tokens[..|tokens| - 1]) + tokens[|tokens| - 1] by {
        if |tokens| > 0 {
          ConcatAt(tokens, |tokens| - 1);
          assert tokens[|tokens|..] == [];
        }
      }
      assert forall i :: 0 <= i < |tokens| ==> IsPrefix(Concat(tokens[..i]) + tokens[i], Concat(tokens)) by {
        forall i | 0 <= i < |tokens|
          ensures IsPrefix(Concat(tokens[..i]) + tokens[i], Concat(tokens))
        {
          ConcatAt(tokens, i);
        }
      }
      Concat(tokens)
    }
  }
}
