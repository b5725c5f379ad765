/**
  The file a translation is written to and the switcher it must show, from the name of the
  document it translates.
 */
module TranslationFiles {
  import opened Wrappers
  import opened PairingRecords
  import L = Lines
  import S = LanguageSwitcher
  import G = SwitcherGrammar

  datatype Target = Target(filename: string, switcher: string)

  datatype NameError = NotABasename | WrongLanguage

  function TargetOf(source: string, chinese: bool): Result<Target, NameError> {
    if !NoSlash(source) then Err(NotABasename)
    else if chinese != EndsWith(source, ".zh.md") || !EndsWith(source, ".md") then Err(WrongLanguage)
    else if chinese then
      Ok(Target(source[..|source| - 6] + ".md", S.ENGLISH_PREFIX + source + ")"))
    else
      Ok(Target(source[..|source| - 3] + ".zh.md", S.CHINESE_PREFIX + source + S.CHINESE_SUFFIX))
  }

  /** The switcher leads back to the translated document, and is recognised unless the name breaks a line. */
  lemma SwitcherLeadsBack(source: string, chinese: bool)
    requires TargetOf(source, chinese).Ok?
    ensures var switcher := TargetOf(source, chinese).value.switcher;
      G.SwitchesTo(switcher, source) && (S.IsSwitcher(switcher) <==> L.Unbroken(source))
  {
    var switcher := TargetOf(source, chinese).value.switcher;
    G.SwitcherIff(switcher);
    if !L.Unbroken(source) {
      var i :| 0 <= i < |source| && L.IsTerminator(source[i]);
      var at := if chinese then |S.ENGLISH_PREFIX| else |S.CHINESE_PREFIX|;
      assert switcher[at + i] == source[i];
    }
  }

  /** The target of an English document is the translation in its pair. */
  lemma TargetIsPaired(source: string)
    requires NoSlash(source)
    ensures TargetOf(source, false).Ok? <==> PathsOf(source).Some?
    ensures TargetOf(source, false).Ok? ==> TargetOf(source, false).value.filename == PathsOf(source).value.zh
  {
  }

  lemma ChineseTarget(source: string, stem: string)
    requires TargetOf(source, true).Ok? && source == stem + ".zh.md"
    ensures var target := TargetOf(source, true).value.filename;
      target == stem + ".md" && (EndsWith(target, ".zh.md") <==> EndsWith(source, ".zh.zh.md"))
  {
    assert source[..|source| - 6] == stem;
    SameEnd(stem, ".zh", ".md");
    SameEnd(stem, ".zh", ".zh.md");
    assert ".zh" + ".md" == ".zh.md" && ".zh" + ".zh.md" == ".zh.zh.md";
  }

  lemma SameEnd(s: string, suffix: string, tail: string)
    ensures EndsWith(s + tail, suffix + tail) <==> EndsWith(s, suffix)
  {
    if |s| >= |suffix| {
      assert (s + tail)[|s + tail| - |suffix + tail|..] == s[|s| - |suffix|..] + tail;
      assert (s[|s| - |suffix|..] + tail)[..|suffix|] == s[|s| - |suffix|..];
      assert (suffix + tail)[..|suffix|] == suffix;
    }
  }

  lemma EnglishTarget(source: string, stem: string)
    requires TargetOf(source, false).Ok? && source == stem + ".md"
    ensures TargetOf(source, false).value.filename == stem + ".zh.md" && !EndsWith(source, ".zh.zh.md")
  {
    assert source[..|source| - 3] == stem;
    assert EndsWith(source, ".zh.zh.md") ==> EndsWith(source, ".zh.md");
  }

  /** Translating back names the first document, exactly when the target is in the other language. */
  lemma TargetRoundTripIff(source: string, chinese: bool)
    requires TargetOf(source, chinese).Ok?
    ensures var target := TargetOf(source, chinese).value.filename;
      && NoSlash(target)
      && (TargetOf(target, !chinese).Ok? <==> !EndsWith(source, ".zh.zh.md"))
      && (TargetOf(target, !chinese).Ok? ==> TargetOf(target, !chinese).value.filename == source)
  {
    var stem := source[..|source| - (if chinese then 6 else 3)];
    if chinese {
      ChineseTarget(source, stem);
      if TargetOf(stem + ".md", false).Ok? { EnglishTarget(stem + ".md", stem); }
    } else {
      EnglishTarget(source, stem);
      assert EndsWith(stem + ".zh.md", ".zh.md") && EndsWith(stem + ".zh.md", ".md");
      ChineseTarget(stem + ".zh.md", stem);
    }
  }
}
