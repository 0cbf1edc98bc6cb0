/** The voice-selection rule of `speak`'s inner `pickVoice` (script.js lines
    29-33): an exact language match, else a voice whose language starts with
    the target's text before its first '-', else the first voice, else none. */
module VoiceSelection {

  import opened Wrappers

  /** A voice of the host's catalog; only its language takes part in the rule. */
  datatype Voice = Voice(name: string, lang: string)

  /** `Array.prototype.find` as an index: the first position whose element
      satisfies `p`, or nothing when none does. */
  function FirstMatch<T>(s: seq<T>, p: T -> bool): (r: Option<nat>)
    ensures r.Some? ==> r.value < |s| && p(s[r.value])
    ensures r.Some? ==> forall j :: 0 <= j < r.value ==> !p(s[j])
    ensures r.None? ==> forall j :: 0 <= j < |s| ==> !p(s[j])
  {
    if |s| == 0 then None
    else if p(s[0]) then Some(0)
    else match FirstMatch(s[1..], p)
      case None => None
      case Some(i) => Some(i + 1)
  }

  /** `lang.split('-')[0]`: the text before the first '-', or all of `lang`
      when it has none. */
  function PrimarySubtag(lang: string): (p: string)
    ensures p <= lang
    ensures '-' !in p
    ensures p == lang || lang[|p|] == '-'
  {
    if |lang| == 0 || lang[0] == '-' then ""
    else [lang[0]] + PrimarySubtag(lang[1..])
  }

  /** `String.prototype.startsWith`: a plain prefix test on characters. */
  predicate StartsWith(s: string, prefix: string) {
    prefix <= s
  }

  predicate ExactMatch(v: Voice, lang: string) {
    v.lang == lang
  }

  predicate PrefixMatch(v: Voice, lang: string) {
    StartsWith(v.lang, PrimarySubtag(lang))
  }

  /** The position `pickVoice` chooses in `voices` for target `lang`. */
  function PickIndex(voices: seq<Voice>, lang: string): (r: Option<nat>)
    ensures r.None? <==> |voices| == 0
    ensures r.Some? ==> r.value < |voices|
  {
    var exact := FirstMatch(voices, v => ExactMatch(v, lang));
    if exact.Some? then exact
    else
      var prefixed := FirstMatch(voices, v => PrefixMatch(v, lang));
      if prefixed.Some? then prefixed
      else if |voices| > 0 then Some(0)
      else None
  }

  /** The voice `pickVoice` assigns, or nothing (the utterance keeps the host
      default) when the catalog is empty. Any chosen voice is in the catalog. */
  function PickVoice(voices: seq<Voice>, lang: string): (r: Option<Voice>)
    ensures r.None? <==> |voices| == 0
    ensures r.Some? ==> r.value in voices
  {
    match PickIndex(voices, lang)
    case None => None
    case Some(i) => Some(voices[i])
  }

  /** The rule stated declaratively: `i` is the first exact match when there
      is one, else the first prefix match when there is one, else 0. */
  ghost predicate IsChoice(voices: seq<Voice>, lang: string, i: nat) {
    && i < |voices|
    && if exists k :: 0 <= k < |voices| && ExactMatch(voices[k], lang) then
         ExactMatch(voices[i], lang) && forall j :: 0 <= j < i ==> !ExactMatch(voices[j], lang)
       else if exists k :: 0 <= k < |voices| && PrefixMatch(voices[k], lang) then
         PrefixMatch(voices[i], lang) && forall j :: 0 <= j < i ==> !PrefixMatch(voices[j], lang)
       else
         i == 0
  }

  /** `PickIndex` meets the declarative rule, and the rule has no other
      answer: for a non-empty catalog, `i` is chosen exactly when `IsChoice`
      holds of it. */
  lemma PickIndexIsChoice(voices: seq<Voice>, lang: string, i: nat)
    ensures PickIndex(voices, lang) == Some(i) <==> IsChoice(voices, lang, i)
  {
    var exact := FirstMatch(voices, v => ExactMatch(v, lang));
    var prefixed := FirstMatch(voices, v => PrefixMatch(v, lang));
    if exact.Some? {
      assert ExactMatch(voices[exact.value], lang);
    } else if prefixed.Some? {
      assert PrefixMatch(voices[prefixed.value], lang);
    }
  }

  /** An exact match wins even when an earlier voice matches only by prefix. */
  lemma ExactBeatsEarlierPrefix(voices: seq<Voice>, lang: string, i: nat)
    requires i < |voices| && ExactMatch(voices[i], lang)
    requires forall j :: 0 <= j < i ==> !ExactMatch(voices[j], lang)
    ensures PickVoice(voices, lang) == Some(voices[i])
  {
    PickIndexIsChoice(voices, lang, i);
  }

  /** With no exact match, the first prefix match is chosen. */
  lemma FirstPrefixWithoutExact(voices: seq<Voice>, lang: string, i: nat)
    requires forall k :: 0 <= k < |voices| ==> !ExactMatch(voices[k], lang)
    requires i < |voices| && PrefixMatch(voices[i], lang)
    requires forall j :: 0 <= j < i ==> !PrefixMatch(voices[j], lang)
    ensures PickVoice(voices, lang) == Some(voices[i])
  {
    PickIndexIsChoice(voices, lang, i);
  }

  /** With neither kind of match, the first voice of the catalog is chosen. */
  lemma FirstVoiceWithoutMatch(voices: seq<Voice>, lang: string)
    requires |voices| > 0
    requires forall k :: 0 <= k < |voices| ==> !ExactMatch(voices[k], lang) && !PrefixMatch(voices[k], lang)
    ensures PickVoice(voices, lang) == Some(voices[0])
  {
    PickIndexIsChoice(voices, lang, 0);
  }

  /** The fallback is a character prefix test, not a subtag boundary test
      (section 2.1 of RFC 5646 separates subtags by '-'): for target "en-US",
      a voice tagged "eng-X" is taken over the catalog's first voice. */
  lemma PrefixIgnoresSubtagBoundary()
    ensures PickVoice([Voice("a", "fr-FR"), Voice("b", "eng-X")], "en-US") == Some(Voice("b", "eng-X"))
  {
    var voices := [Voice("a", "fr-FR"), Voice("b", "eng-X")];
    assert PrimarySubtag("en-US") == "en" by {
      assert "en-US"[2] == '-';
    }
    assert !PrefixMatch(voices[0], "en-US");
    PickIndexIsChoice(voices, "en-US", 1);
  }

  /** An empty target has the empty primary subtag, which every voice starts
      with: unless some voice has the empty language, the first voice is chosen. */
  lemma EmptyTargetTakesFirst(voices: seq<Voice>)
    requires |voices| > 0
    requires forall k :: 0 <= k < |voices| ==> voices[k].lang != ""
    ensures PickVoice(voices, "") == Some(voices[0])
  {
    assert PrefixMatch(voices[0], "");
    PickIndexIsChoice(voices, "", 0);
  }
}
