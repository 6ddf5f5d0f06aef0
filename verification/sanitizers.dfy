/**
 The two public operations, `preprocess_text` and `sanitize_mass_mentions`,
 composed from the three substitutions and two library calls.

 The library calls (`ftfy.fix_text` for mojibake and HTML-entity repair, and
 `bidi.algorithm.get_display` for the Unicode Bidirectional Algorithm) are
 not modelled: they are supplied as arbitrary functions in a `Library`. The
 general properties hold for every such function; the worked examples state
 their hypotheses about the library results in their `requires`.
 */
module Sanitizers {
  import opened CodePoints
  import opened DropChars
  import opened HtmlTags
  import opened Mentions

  /** The keyword options of `preprocess_text`. */
  datatype PreprocessOptions = PreprocessOptions(stripHtml: bool, fixDirectionalOverrides: bool)

  /** `strip_html=False`, `fix_directional_overrides=True`. */
  const DefaultPreprocessOptions := PreprocessOptions(false, true)

  /** `run_preprocess=True`. */
  const DefaultRunPreprocess := true

  /** The delegated library calls: `fixText(text, fixEntities)` and `getDisplay(text)`. */
  datatype Library = Library(fixText: (Text, bool) -> Text, getDisplay: Text -> Text)

  /** `preprocess_text`: optional tag stripping, mojibake repair (with entity
      decoding exactly when tags are stripped), optional bidirectional display
      reordering, then the unconditional drop pass. */
  function PreprocessText(text: Text, options: PreprocessOptions, lib: Library): (r: Text)
    ensures Clean(r)
  {
    var stripped := if options.stripHtml then StripTags(text) else text;
    var fixed := lib.fixText(stripped, options.stripHtml);
    var displayed := if options.fixDirectionalOverrides then lib.getDisplay(fixed) else fixed;
    DropKnownDropped(displayed)
  }

  /** The substitution never brings a dropped code point into clean text:
      neither `@` nor the zero width space is in the drop table. */
  lemma EscapeKeepsClean(t: Text)
    requires Clean(t)
    ensures Clean(EscapeMentions(t))
  {
    EscapeContents(t);
    var r := EscapeMentions(t);
    forall i | 0 <= i < |r| ensures !IsDropped(r[i]) {
      assert r[i] in r;
      if r[i] != ZeroWidthSpace {
        var j :| 0 <= j < |t| && t[j] == r[i];
      }
    }
  }

  /** `sanitize_mass_mentions`: the mention substitution, applied to the
      preprocessed text when `runPreprocess` is set and to the text itself
      otherwise. */
  function SanitizeMassMentions(text: Text, runPreprocess: bool, options: PreprocessOptions, lib: Library): (r: Text)
    ensures AllMentionsBroken(r)
    ensures RestoreMentions(r) == if runPreprocess then PreprocessText(text, options, lib) else text
    ensures runPreprocess ==> Clean(r)
  {
    var input := if runPreprocess then PreprocessText(text, options, lib) else text;
    EscapeBreaksAllMentions(input);
    EscapeRoundTrip(input);
    if runPreprocess then EscapeKeepsClean(input); EscapeMentions(input)
    else EscapeMentions(input)
  }

  /** The contract of SanitizeMassMentions determines its result: any text
      whose `@` all carry their break and whose breaks, once removed, give the
      (possibly preprocessed) input is the result. In particular, without
      preprocessing the result is exactly the substitution applied to the text. */
  lemma SanitizeDetermined(text: Text, runPreprocess: bool, options: PreprocessOptions, lib: Library, r: Text)
    requires AllMentionsBroken(r)
    requires RestoreMentions(r) == if runPreprocess then PreprocessText(text, options, lib) else text
    ensures r == SanitizeMassMentions(text, runPreprocess, options, lib)
    ensures !runPreprocess ==> r == EscapeMentions(text)
  {
    EscapeOfRestore(r);
  }

  /** The stages of the preprocessor, for stating its fixed order and flag wiring. */
  datatype Step = StripHtmlTags | FixText(fixEntities: bool) | BidiDisplay | DropDropped

  /** Position of each stage in the source's fixed order. */
  function Rank(s: Step): nat {
    match s
    case StripHtmlTags => 0
    case FixText(_) => 1
    case BidiDisplay => 2
    case DropDropped => 3
  }

  /** The stages `preprocess_text` runs for the given options, in order. */
  function Plan(options: PreprocessOptions): (p: seq<Step>)
    ensures StripHtmlTags in p <==> options.stripHtml
    ensures BidiDisplay in p <==> options.fixDirectionalOverrides
    ensures FixText(options.stripHtml) in p && FixText(!options.stripHtml) !in p
    ensures 0 < |p| && p[|p| - 1] == DropDropped
    ensures forall i, j :: 0 <= i < j < |p| ==> Rank(p[i]) < Rank(p[j])
  {
    (if options.stripHtml then [StripHtmlTags] else [])
    + [FixText(options.stripHtml)]
    + (if options.fixDirectionalOverrides then [BidiDisplay] else [])
    + [DropDropped]
  }

  function RunStep(s: Step, t: Text, lib: Library): Text {
    match s
    case StripHtmlTags => StripTags(t)
    case FixText(fixEntities) => lib.fixText(t, fixEntities)
    case BidiDisplay => lib.getDisplay(t)
    case DropDropped => DropKnownDropped(t)
  }

  /** The stages of `p` applied one after another, first to last. */
  function Run(p: seq<Step>, t: Text, lib: Library): Text
    decreases |p|
  {
    if |p| == 0 then t else Run(p[1..], RunStep(p[0], t, lib), lib)
  }

  /** Whatever stages come before it, a run that ends with the drop pass leaves
      no dropped code point. */
  lemma {:induction false} RunEndingInDropIsClean(p: seq<Step>, t: Text, lib: Library)
    requires 0 < |p| && p[|p| - 1] == DropDropped
    ensures Clean(Run(p, t, lib))
    decreases |p|
  {
    if |p| > 1 {
      assert p[1..][|p[1..]| - 1] == DropDropped;
      RunEndingInDropIsClean(p[1..], RunStep(p[0], t, lib), lib);
    } else {
      assert Run(p[1..], RunStep(p[0], t, lib), lib) == DropKnownDropped(t);
    }
  }

  /** `preprocess_text` is exactly the run of its plan. */
  lemma PreprocessFollowsPlan(text: Text, options: PreprocessOptions, lib: Library)
    ensures PreprocessText(text, options, lib) == Run(Plan(options), text, lib)
  {
    var p := Plan(options);
    var stripped := if options.stripHtml then StripTags(text) else text;
    var fixed := lib.fixText(stripped, options.stripHtml);
    var displayed := if options.fixDirectionalOverrides then lib.getDisplay(fixed) else fixed;
    var q := [FixText(options.stripHtml)] + (if options.fixDirectionalOverrides then [BidiDisplay] else []) + [DropDropped];
    assert Run(p, text, lib) == Run(q, stripped, lib) by {
      if options.stripHtml {
        assert p[0] == StripHtmlTags && p[1..] == q;
      } else {
        assert p == q;
      }
    }
    assert Run(q, stripped, lib) == Run(q[1..], fixed, lib);
    var q' := q[1..];
    assert Run(q', fixed, lib) == DropKnownDropped(displayed) by {
      if options.fixDirectionalOverrides {
        assert q' == [BidiDisplay, DropDropped];
        assert q'[1..] == [DropDropped] && q'[1..][1..] == [];
        assert Run(q', fixed, lib) == Run([DropDropped], displayed, lib);
        assert Run([DropDropped], displayed, lib) == Run([], DropKnownDropped(displayed), lib);
      } else {
        assert q' == [DropDropped] && q'[1..] == [];
        assert Run(q', fixed, lib) == Run([], DropKnownDropped(displayed), lib);
      }
    }
  }

  /** On text that is already clean (no dropped code point, no tag when tags
      are stripped) and that the library calls which run leave alone,
      preprocessing is the identity, for every combination of the flags. */
  lemma PreprocessIdentityOnCleanText(text: Text, options: PreprocessOptions, lib: Library)
    requires Clean(text)
    requires options.stripHtml ==> NoTagLeft(text)
    requires lib.fixText(text, options.stripHtml) == text
    requires options.fixDirectionalOverrides ==> lib.getDisplay(text) == text
    ensures PreprocessText(text, options, lib) == text
  {
    if options.stripHtml {
      StripTagsIdentityIff(text);
    }
    DropIdentityIffClean(text);
  }

  /** Text of ASCII code points other than `|` has nothing to drop. */
  lemma AsciiIsClean(s: string)
    requires forall i :: 0 <= i < |s| ==> s[i] as int < 0x80 && s[i] != '|'
    ensures Clean(Ascii(s))
  {
    var t := Ascii(s);
    forall i | 0 <= i < |t| ensures !IsDropped(t[i]) {
      assert t[i] == s[i] as int && t[i] < 0x80 && t[i] != VerticalLine;
    }
  }

  /** With tag stripping and the default display reordering, `<b>hi</b>`
      becomes `hi`, given library calls that leave `hi` alone. */
  lemma BoldTagStrippedExample(lib: Library)
    requires lib.fixText(Ascii("hi"), true) == Ascii("hi")
    requires lib.getDisplay(Ascii("hi")) == Ascii("hi")
    ensures PreprocessText(Ascii("<b>hi</b>"), PreprocessOptions(true, true), lib) == Ascii("hi")
  {
    StripBoldExample();
    AsciiIsClean("hi");
    DropIdentityIffClean(Ascii("hi"));
  }

  /** With the default options (no tag stripping, display reordering on),
      `<b>hi</b>` keeps its tags, given library calls that leave it alone. */
  lemma BoldTagKeptExample(lib: Library)
    requires lib.fixText(Ascii("<b>hi</b>"), false) == Ascii("<b>hi</b>")
    requires lib.getDisplay(Ascii("<b>hi</b>")) == Ascii("<b>hi</b>")
    ensures PreprocessText(Ascii("<b>hi</b>"), DefaultPreprocessOptions, lib) == Ascii("<b>hi</b>")
  {
    AsciiIsClean("<b>hi</b>");
    PreprocessIdentityOnCleanText(Ascii("<b>hi</b>"), DefaultPreprocessOptions, lib);
  }

  /** With every option at its default, `@everyone` becomes `@` U+200B
      `everyone`, given library calls that leave `@everyone` alone. */
  lemma SanitizeDefaultsExample(lib: Library)
    requires lib.fixText(Ascii("@everyone"), false) == Ascii("@everyone")
    requires lib.getDisplay(Ascii("@everyone")) == Ascii("@everyone")
    ensures SanitizeMassMentions(Ascii("@everyone"), DefaultRunPreprocess, DefaultPreprocessOptions, lib)
      == [CommercialAt, ZeroWidthSpace] + Ascii("everyone")
  {
    AsciiIsClean("@everyone");
    PreprocessIdentityOnCleanText(Ascii("@everyone"), DefaultPreprocessOptions, lib);
    EveryoneExample();
  }

  /** Without preprocessing only the substitution applies: `@everyone` gets
      its break and `no mentions here` is returned as it is. */
  lemma SanitizeWithoutPreprocessExamples(options: PreprocessOptions, lib: Library)
    ensures SanitizeMassMentions(Ascii("@everyone"), false, options, lib)
      == [CommercialAt, ZeroWidthSpace] + Ascii("everyone")
    ensures SanitizeMassMentions(Ascii("no mentions here"), false, options, lib) == Ascii("no mentions here")
  {
    EveryoneExample();
    var plain := Ascii("no mentions here");
    assert CommercialAt !in plain by {
      forall i | 0 <= i < |plain| ensures plain[i] != CommercialAt {}
    }
    EscapeIdentityIff(plain);
  }
}
