/**
 * The grapheme-to-phoneme backends of `phoneme_tokenizer.py`: the string handling each
 * one does around its library call. The libraries themselves (g2p_en, pyopenjtalk,
 * pypinyin, the espeak-ng process and ipapy's ARPABET mapper) are not modelled; their
 * results come in as the fields of `Libraries`.
 */
module G2p {
  import opened Results
  import opened Text

  /** What a finished `espeak-ng` process hands back. */
  datatype Completed = Completed(returncode: int, stdout: string)

  /**
   * The foreign code, as functions of their arguments. `M` is the type of a constructed
   * `g2p_en.G2p` model.
   */
  datatype Libraries<!M> = Libraries(
    newG2pEn: M,                                // g2p_en.G2p()
    g2pEn: (M, string) -> seq<string>,          // calling a g2p_en.G2p model on a text
    openJTalk: (string, bool) -> string,        // pyopenjtalk.g2p(text, kana=...)
    pinyin: string -> seq<string>,              // first TONE3 reading of each unit of pypinyin.pinyin(text)
    initials: string -> string,                 // get_initials(syllable, strict=True)
    finals: string -> string,                   // get_finals(syllable, strict=True)
    runEspeak: (seq<string>, string) -> Completed,  // subprocess.run(argv, input=text)
    toArpabet: string -> seq<string>)           // ARPABETMapper().map_unicode_string(..., return_as_list=True)

  datatype G2pError = EspeakExit(returncode: int)

  /** The backend a `g2p_type` key selects. */
  datatype Backend =
    | G2pEnglish(noSpace: bool)
    | Pyopenjtalk
    | PyopenjtalkKana
    | PypinyinG2p
    | PypinyinG2pPhone
    | Espeak(espeak: EspeakG2p)

  /** `pyopenjtalk_g2p`: the space-separated phoneme string, split on spaces. */
  function PyopenjtalkPhones(phones: string): (r: seq<string>)
    ensures |r| >= 1
    ensures forall i :: 0 <= i < |r| ==> ' ' !in r[i]
    ensures JoinWith(r, ' ') == phones
  {
    Split(phones, ' ')
  }

  /** `pyopenjtalk_g2p_kana`: one token per kana character. */
  function PyopenjtalkKanas(kanas: string): (r: seq<string>)
    ensures forall i :: 0 <= i < |r| ==> |r[i]| == 1
    ensures Concat(r) == kanas
  {
    Chars(kanas)
  }

  /** Each syllable's initial then its final, empty parts included. */
  function InitialsAndFinals(syllables: seq<string>, initials: string -> string, finals: string -> string): seq<string>
  {
    if |syllables| == 0 then []
    else [initials(syllables[0])] + ([finals(syllables[0])] + InitialsAndFinals(syllables[1..], initials, finals))
  }

  /** `[x]`, or nothing when `x` is empty (the `if len(p) != 0` of the comprehension). */
  function NonEmpty(x: string): seq<string>
  {
    if x != "" then [x] else []
  }

  /** `NonEmpty(x)` is `[x]` with its empty strings taken out. */
  lemma MultisetNonEmpty(x: string)
    ensures multiset(NonEmpty(x)) == multiset([x])["" := 0]
  {
    if x == "" {
      assert multiset([x]) == multiset{""};
    }
  }

  /**
   * `pypinyin_g2p_phone`: the initial and the final of each syllable, in that order,
   * leaving out the empty ones.
   */
  function PinyinPhones(syllables: seq<string>, initials: string -> string, finals: string -> string): (r: seq<string>)
    ensures forall i :: 0 <= i < |r| ==> r[i] != ""
    ensures |r| <= 2 * |syllables|
    ensures Concat(r) == Concat(InitialsAndFinals(syllables, initials, finals))
  {
    if |syllables| == 0 then []
    else
      var ini, fin := initials(syllables[0]), finals(syllables[0]);
      var rest := PinyinPhones(syllables[1..], initials, finals);
      var all := InitialsAndFinals(syllables[1..], initials, finals);
      assert Concat(NonEmpty(ini) + (NonEmpty(fin) + rest)) == ini + (fin + Concat(rest)) by {
        ConcatSingle(ini);
        ConcatSingle(fin);
        ConcatAppend(NonEmpty(fin), rest);
        ConcatAppend(NonEmpty(ini), NonEmpty(fin) + rest);
      }
      assert Concat([ini] + ([fin] + all)) == ini + (fin + Concat(all)) by {
        ConcatSingle(ini);
        ConcatSingle(fin);
        ConcatAppend([fin], all);
        ConcatAppend([ini], [fin] + all);
      }
      NonEmpty(ini) + (NonEmpty(fin) + rest)
  }

  /** The first syllable's non-empty parts, then the phones of the others. */
  lemma PinyinPhonesCons(syllables: seq<string>, initials: string -> string, finals: string -> string)
    requires |syllables| > 0
    ensures PinyinPhones(syllables, initials, finals) ==
              NonEmpty(initials(syllables[0])) + (NonEmpty(finals(syllables[0])) + PinyinPhones(syllables[1..], initials, finals))
  {
  }

  /** The phones of consecutive runs of syllables are the phones of the whole run, so no syllable's parts move. */
  lemma {:induction false} PinyinPhonesAppend(a: seq<string>, b: seq<string>, initials: string -> string, finals: string -> string)
    ensures PinyinPhones(a + b, initials, finals) == PinyinPhones(a, initials, finals) + PinyinPhones(b, initials, finals)
  {
    if |a| == 0 {
      assert a + b == b;
    } else {
      var ab := a + b;
      assert ab[0] == a[0] && ab[1..] == a[1..] + b;
      var ini, fin := NonEmpty(initials(a[0])), NonEmpty(finals(a[0]));
      var restA, restB := PinyinPhones(a[1..], initials, finals), PinyinPhones(b, initials, finals);
      PinyinPhonesCons(ab, initials, finals);
      PinyinPhonesCons(a, initials, finals);
      PinyinPhonesAppend(a[1..], b, initials, finals);
      RegroupAppend(ini, fin, restA, restB);
    }
  }

  /** The phones keep the order of the initials and finals, each initial before its final. */
  lemma {:induction false} PinyinPhonesInOrder(syllables: seq<string>, initials: string -> string, finals: string -> string)
    ensures IsSubsequence(PinyinPhones(syllables, initials, finals), InitialsAndFinals(syllables, initials, finals))
  {
    if |syllables| > 0 {
      var ini, fin := initials(syllables[0]), finals(syllables[0]);
      var rest := PinyinPhones(syllables[1..], initials, finals);
      var all := InitialsAndFinals(syllables[1..], initials, finals);
      PinyinPhonesInOrder(syllables[1..], initials, finals);
      assert IsSubsequence(NonEmpty(fin) + rest, [fin] + all) by {
        if fin != "" {
          SubsequenceCons(fin, rest, all);
        } else {
          assert NonEmpty(fin) + rest == rest;
          SubsequenceSkip(rest, [fin], all);
        }
      }
      if ini != "" {
        SubsequenceCons(ini, NonEmpty(fin) + rest, [fin] + all);
      } else {
        assert NonEmpty(ini) + (NonEmpty(fin) + rest) == NonEmpty(fin) + rest;
        SubsequenceSkip(NonEmpty(fin) + rest, [ini], [fin] + all);
      }
    }
  }

  /** The phones are the initials and finals with exactly the empty ones taken out. */
  lemma {:induction false} PinyinPhonesDropEmpty(syllables: seq<string>, initials: string -> string, finals: string -> string)
    ensures multiset(PinyinPhones(syllables, initials, finals)) == multiset(InitialsAndFinals(syllables, initials, finals))["" := 0]
  {
    if |syllables| > 0 {
      var ini, fin := initials(syllables[0]), finals(syllables[0]);
      var rest := PinyinPhones(syllables[1..], initials, finals);
      var all := InitialsAndFinals(syllables[1..], initials, finals);
      PinyinPhonesDropEmpty(syllables[1..], initials, finals);
      MultisetNonEmpty(ini);
      MultisetNonEmpty(fin);
      assert PinyinPhones(syllables, initials, finals) == NonEmpty(ini) + (NonEmpty(fin) + rest);
      assert InitialsAndFinals(syllables, initials, finals) == [ini] + ([fin] + all);
      assert multiset(NonEmpty(ini) + (NonEmpty(fin) + rest)) == multiset(NonEmpty(ini)) + (multiset(NonEmpty(fin)) + multiset(rest));
      assert multiset([ini] + ([fin] + all)) == multiset([ini]) + (multiset([fin]) + multiset(all));
      MultisetRemoveAdd(multiset([fin]), multiset(all), "");
      MultisetRemoveAdd(multiset([ini]), multiset([fin]) + multiset(all), "");
    }
  }

  /** `list(filter(lambda s: s != " ", phones))` */
  function DropSpaces(phones: seq<string>): (r: seq<string>)
    ensures " " !in r
    ensures multiset(r) == multiset(phones)[" " := 0]
    ensures IsSubsequence(r, phones)
  {
    if |phones| == 0 then []
    else
      var rest := DropSpaces(phones[1..]);
      assert phones == [phones[0]] + phones[1..];
      if phones[0] == " " then
        SubsequenceSkip(rest, [phones[0]], phones[1..]);
        rest
      else
        assert ([phones[0]] + rest)[1..] == rest;
        [phones[0]] + rest
  }

  /** What a `G2p_en` returns for the model's output. */
  function EnglishPhones(phones: seq<string>, noSpace: bool): seq<string>
  {
    if noSpace then DropSpaces(phones) else phones
  }

  /** Every character of a part shows up in the joined string. */
  lemma {:induction false} JoinWithKeepsChars(parts: seq<string>, sep: char, i: nat, c: char)
    requires i < |parts| && c in parts[i]
    ensures c in JoinWith(parts, sep)
  {
    if |parts| > 1 {
      if i == 0 {
        assert JoinWith(parts, sep) == parts[0] + ([sep] + JoinWith(parts[1..], sep));
      } else {
        JoinWithKeepsChars(parts[1..], sep, i - 1, c);
      }
    }
  }

  /**
   * The non-ARPABET tail of `espeak_g2p.__call__`: spaces become underscores and the
   * result is split on underscores.
   */
  function EspeakTokens(stdout: string): (r: seq<string>)
    ensures |r| >= 1
    ensures forall i :: 0 <= i < |r| ==> ' ' !in r[i] && '_' !in r[i]
    ensures JoinWith(r, '_') == Replace(stdout, ' ', '_')
  {
    var s := Replace(stdout, ' ', '_');
    var r := Split(s, '_');
    assert ' ' !in s by {
      forall i | 0 <= i < |s|
        ensures s[i] != ' '
      {
      }
    }
    assert forall i, c :: 0 <= i < |r| && c in r[i] ==> c in s by {
      forall i, c | 0 <= i < |r| && c in r[i]
        ensures c in s
      {
        JoinWithKeepsChars(r, '_', i, c);
      }
    }
    r
  }

  /** `espeak_g2p`: a language code and whether to map the output to ARPABET. */
  datatype EspeakG2p = EspeakG2p(lang: string, arpabet: bool) {

    /** The argument vector of the `espeak-ng` call. */
    function Args(): (r: seq<string>)
      ensures |r| == 6 && r[0] == "espeak-ng" && r[2] == lang && r[4] == "--sep=_"
      ensures arpabet <==> r[5] == "--ipa"
      ensures !arpabet ==> r[5] == ""
    {
      ["espeak-ng", "-xqv", lang, "espeak", "--sep=_", if arpabet then "--ipa" else ""]
    }

    /** `espeak_g2p.__call__`: a failed process is an error; its output is either mapped to ARPABET or split. */
    function Call(text: string, run: (seq<string>, string) -> Completed, toArpabet: string -> seq<string>)
      : (r: Result<seq<string>, G2pError>)
      ensures r.Err? <==> run(Args(), text).returncode != 0
      ensures r.Err? ==> r.error.returncode == run(Args(), text).returncode
      ensures r.Ok? && arpabet ==> r.value == toArpabet(run(Args(), text).stdout)
      ensures r.Ok? && !arpabet ==>
                |r.value| >= 1 &&
                (forall i :: 0 <= i < |r.value| ==> ' ' !in r.value[i] && '_' !in r.value[i]) &&
                JoinWith(r.value, '_') == Replace(run(Args(), text).stdout, ' ', '_')
    {
      var proc := run(Args(), text);
      if proc.returncode != 0 then Err(EspeakExit(proc.returncode))
      else if arpabet then Ok(toArpabet(proc.stdout))
      else Ok(EspeakTokens(proc.stdout))
    }
  }

  /**
   * `G2p_en`: the English model is built on the first call, not when the wrapper is
   * made, and every later call reuses it.
   */
  class G2pEn<M> {
    const noSpace: bool
    var g2p: Option<M>

    constructor (noSpace: bool)
      ensures this.noSpace == noSpace && g2p == None
    {
      this.noSpace := noSpace;
      g2p := None;
    }

    /** `G2p_en.__call__` */
    method Call(text: string, newModel: M, infer: (M, string) -> seq<string>) returns (phones: seq<string>)
      modifies this
      ensures g2p.Some?
      ensures old(g2p).Some? ==> g2p == old(g2p)
      ensures old(g2p).None? ==> g2p == Some(newModel)
      ensures phones == EnglishPhones(infer(g2p.value, text), noSpace)
      ensures noSpace ==> " " !in phones
    {
      if g2p.None? {
        g2p := Some(newModel);
      }
      phones := infer(g2p.value, text);
      if noSpace {
        phones := DropSpaces(phones);
      }
    }
  }

  /** Running a backend on a text; `model` is the g2p_en model, read only by `G2pEnglish`. */
  function Convert<M>(b: Backend, text: string, libs: Libraries<M>, model: M): (r: Result<seq<string>, G2pError>)
    ensures r.Err? <==> b.Espeak? && libs.runEspeak(b.espeak.Args(), text).returncode != 0
    ensures b.G2pEnglish? ==> r == Ok(EnglishPhones(libs.g2pEn(model, text), b.noSpace))
    ensures b.G2pEnglish? && b.noSpace ==> " " !in r.value
    ensures b.Pyopenjtalk? ==>
              |r.value| >= 1 &&
              (forall i :: 0 <= i < |r.value| ==> ' ' !in r.value[i]) &&
              JoinWith(r.value, ' ') == libs.openJTalk(text, false)
    ensures b.PyopenjtalkKana? ==>
              (forall i :: 0 <= i < |r.value| ==> |r.value[i]| == 1) &&
              Concat(r.value) == libs.openJTalk(text, true)
    ensures b.PypinyinG2p? ==> r == Ok(libs.pinyin(text))
    ensures b.PypinyinG2pPhone? ==> r == Ok(PinyinPhones(libs.pinyin(text), libs.initials, libs.finals))
    ensures b.Espeak? ==> r == b.espeak.Call(text, libs.runEspeak, libs.toArpabet)
  {
    match b
    case G2pEnglish(noSpace) => Ok(EnglishPhones(libs.g2pEn(model, text), noSpace))
    case Pyopenjtalk => Ok(PyopenjtalkPhones(libs.openJTalk(text, false)))
    case PyopenjtalkKana => Ok(PyopenjtalkKanas(libs.openJTalk(text, true)))
    case PypinyinG2p => Ok(libs.pinyin(text))
    case PypinyinG2pPhone => Ok(PinyinPhones(libs.pinyin(text), libs.initials, libs.finals))
    case Espeak(e) => e.Call(text, libs.runEspeak, libs.toArpabet)
  }
}
