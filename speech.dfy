/** `speak` (script.js lines 24-47): build an utterance, then either pick a
    voice and hand it to the synthesizer at once, or, while the voice catalog
    is still empty, park it in the single `onvoiceschanged` handler slot and
    pick and speak when that event fires. */
module Speech {

  import opened Wrappers
  import opened VoiceSelection

  /** A `SpeechSynthesisUtterance`: its text, its language, and the voice
      assigned to it (nothing means the host's default voice). */
  datatype Utterance = Utterance(text: string, lang: string, voice: Option<Voice>)

  /** `new SpeechSynthesisUtterance(text)` followed by `utter.lang = lang`. */
  function NewUtterance(text: string, lang: string): Utterance {
    Utterance(text, lang, None)
  }

  /** Running `pickVoice` on the utterance against the current catalog: the
      voice is set to the picked one, or left as it was when the catalog is
      empty. Text and language never change. */
  function Voiced(u: Utterance, catalog: seq<Voice>): (r: Utterance)
    ensures r.text == u.text && r.lang == u.lang
    ensures |catalog| == 0 ==> r == u
    ensures |catalog| > 0 ==> r.voice == PickVoice(catalog, u.lang) && r.voice.value in catalog
  {
    match PickVoice(catalog, u.lang)
    case None => u
    case Some(v) => u.(voice := Some(v))
  }

  /** The synthesis side as the script sees it: whether the host has
      `speechSynthesis` at all, the catalog `getVoices()` currently answers,
      the one `onvoiceschanged` handler slot (holding the utterance it would
      speak), and every utterance handed to `speechSynthesis.speak`. */
  datatype Synth = Synth(available: bool, catalog: seq<Voice>, pending: Option<Utterance>, spoken: seq<Utterance>)

  /** One call `speak(text, lang)`. */
  function SpeakStep(s: Synth, text: string, lang: string): (r: Synth)
    ensures r.available == s.available && r.catalog == s.catalog
  {
    if !s.available then s
    else
      var u := NewUtterance(text, lang);
      if |s.catalog| == 0 then s.(pending := Some(u))
      else s.(spoken := s.spoken + [Voiced(u, s.catalog)])
  }

  /** The host's catalog becomes `catalog` and `voiceschanged` fires: an
      installed handler picks a voice for its utterance and speaks it. The
      handler stays installed, still holding that same utterance. */
  function VoicesChangedStep(s: Synth, catalog: seq<Voice>): (r: Synth)
    ensures r.available == s.available && r.catalog == catalog
    ensures s.pending.None? ==> r.pending.None? && r.spoken == s.spoken
    ensures s.pending.Some? ==>
      && r.pending == Some(Voiced(s.pending.value, catalog))
      && r.spoken == s.spoken + [r.pending.value]
  {
    match s.pending
    case None => s.(catalog := catalog)
    case Some(u) =>
      var u' := Voiced(u, catalog);
      s.(catalog := catalog, pending := Some(u'), spoken := s.spoken + [u'])
  }

  /** The event fired once per catalog in `catalogs`, in order. */
  function VoicesChangedSteps(s: Synth, catalogs: seq<seq<Voice>>): (r: Synth)
    decreases |catalogs|
  {
    if |catalogs| == 0 then s
    else VoicesChangedSteps(VoicesChangedStep(s, catalogs[0]), catalogs[1..])
  }

  /** Without synthesis, `speak` changes nothing. */
  lemma SpeakUnavailable(s: Synth, text: string, lang: string)
    requires !s.available
    ensures SpeakStep(s, text, lang) == s
  {
  }

  /** With a non-empty catalog, `speak` hands the utterance to the synthesizer
      exactly once, with the voice the selection rule picks, and leaves any
      installed handler alone. */
  lemma SpeakImmediately(s: Synth, text: string, lang: string)
    requires s.available && |s.catalog| > 0
    ensures var r := SpeakStep(s, text, lang);
      && r.pending == s.pending
      && |r.spoken| == |s.spoken| + 1
      && r.spoken[..|s.spoken|] == s.spoken
      && r.spoken[|s.spoken|] == Utterance(text, lang, PickVoice(s.catalog, lang))
  {
    var r := SpeakStep(s, text, lang);
    assert r.spoken[..|s.spoken|] == s.spoken;
  }

  /** With an empty catalog, `speak` speaks nothing and installs a handler
      for this utterance, replacing whatever handler was there. */
  lemma SpeakDeferred(s: Synth, text: string, lang: string)
    requires s.available && |s.catalog| == 0
    ensures var r := SpeakStep(s, text, lang);
      r.spoken == s.spoken && r.pending == Some(Utterance(text, lang, None))
  {
  }

  /** A deferred utterance is spoken at the next `voiceschanged`, with the
      voice picked from the new catalog, or with the host's default voice
      when that catalog is still empty. */
  lemma DeferredSpokenOnVoicesChanged(s: Synth, text: string, lang: string, catalog: seq<Voice>)
    requires s.available && |s.catalog| == 0
    ensures VoicesChangedStep(SpeakStep(s, text, lang), catalog).spoken
      == s.spoken + [Utterance(text, lang, PickVoice(catalog, lang))]
  {
  }

  /** Two calls while the catalog is empty: only the second utterance is ever
      spoken, because the second handler replaces the first. */
  lemma SecondDeferralReplacesFirst(s: Synth, text1: string, lang1: string, text2: string, lang2: string, catalog: seq<Voice>)
    requires s.available && |s.catalog| == 0
    ensures VoicesChangedStep(SpeakStep(SpeakStep(s, text1, lang1), text2, lang2), catalog).spoken
      == s.spoken + [Voiced(NewUtterance(text2, lang2), catalog)]
  {
  }

  /** With no handler installed, however often `voiceschanged` fires,
      nothing is spoken and no handler appears: only `speak` installs one. */
  lemma {:induction false} NoHandlerSpeaksNothing(s: Synth, catalogs: seq<seq<Voice>>)
    requires s.pending.None?
    ensures var r := VoicesChangedSteps(s, catalogs);
      r.pending.None? && r.spoken == s.spoken
    decreases |catalogs|
  {
    if |catalogs| > 0 {
      NoHandlerSpeaksNothing(VoicesChangedStep(s, catalogs[0]), catalogs[1..]);
    }
  }

  /** The handler is never removed: once an utterance is pending, every later
      `voiceschanged` speaks it again, one more time per event, each time
      with the same text and language. */
  lemma {:induction false} EveryEventSpeaksAgain(s: Synth, catalogs: seq<seq<Voice>>)
    requires s.pending.Some?
    ensures var r := VoicesChangedSteps(s, catalogs);
      && r.pending.Some?
      && r.pending.value.text == s.pending.value.text
      && r.pending.value.lang == s.pending.value.lang
      && |r.spoken| == |s.spoken| + |catalogs|
      && r.spoken[..|s.spoken|] == s.spoken
      && (forall k :: |s.spoken| <= k < |r.spoken| ==>
           r.spoken[k].text == s.pending.value.text && r.spoken[k].lang == s.pending.value.lang)
      && (|catalogs| > 0 ==> r.pending.value == r.spoken[|r.spoken| - 1])
    decreases |catalogs|
  {
    if |catalogs| > 0 {
      var s1 := VoicesChangedStep(s, catalogs[0]);
      assert s1.spoken[..|s.spoken|] == s.spoken;
      EveryEventSpeaksAgain(s1, catalogs[1..]);
      var r := VoicesChangedSteps(s1, catalogs[1..]);
      assert r.spoken[..|s1.spoken|][..|s.spoken|] == r.spoken[..|s.spoken|];
      if |catalogs| == 1 {
        assert r == s1;
      }
    }
  }

  /** Each repeated event runs `pickVoice` again on the utterance as the
      previous event left it, against the catalog of this event: copy `k`
      carries the voice picked from `catalogs[k]` when that is non-empty, and
      the previous copy's voice (for the first copy, the pending one's) when
      it is empty. */
  lemma {:induction false} EveryEventRepicksVoice(s: Synth, catalogs: seq<seq<Voice>>)
    requires s.pending.Some?
    ensures var r := VoicesChangedSteps(s, catalogs);
      && |r.spoken| == |s.spoken| + |catalogs|
      && forall k :: 0 <= k < |catalogs| ==>
           r.spoken[|s.spoken| + k]
             == Voiced(if k == 0 then s.pending.value else r.spoken[|s.spoken| + k - 1], catalogs[k])
    decreases |catalogs|
  {
    EveryEventSpeaksAgain(s, catalogs);
    if |catalogs| > 0 {
      var s1 := VoicesChangedStep(s, catalogs[0]);
      var rest := catalogs[1..];
      EveryEventSpeaksAgain(s1, rest);
      EveryEventRepicksVoice(s1, rest);
      var r := VoicesChangedSteps(s1, rest);
      var n := |s.spoken|;
      assert r.spoken[n] == s1.spoken[n] by {
        assert r.spoken[..|s1.spoken|][n] == s1.spoken[n];
      }
      forall k | 0 < k < |catalogs|
        ensures r.spoken[n + k]
          == Voiced(if k == 0 then s.pending.value else r.spoken[n + k - 1], catalogs[k])
      {
        assert catalogs[k] == rest[k - 1];
        assert n + k == |s1.spoken| + (k - 1);
      }
    }
  }

  /** The voice of the copy spoken at event `k`, when that event's catalog
      is non-empty, is the one the selection rule picks from that catalog for
      the pending utterance's language. */
  lemma RepeatedFirePicksFromItsCatalog(s: Synth, catalogs: seq<seq<Voice>>, k: nat)
    requires s.pending.Some?
    requires k < |catalogs| && |catalogs[k]| > 0
    ensures var r := VoicesChangedSteps(s, catalogs);
      && |s.spoken| + k < |r.spoken|
      && r.spoken[|s.spoken| + k].voice == PickVoice(catalogs[k], s.pending.value.lang)
  {
    EveryEventSpeaksAgain(s, catalogs);
    EveryEventRepicksVoice(s, catalogs);
    var r := VoicesChangedSteps(s, catalogs);
    if k > 0 {
      assert r.spoken[|s.spoken| + k - 1].lang == s.pending.value.lang;
    }
  }

  /** The synthesis side as an object whose fields `speak` and the
      `voiceschanged` event update in place. */
  class Synthesizer {
    var available: bool
    var catalog: seq<Voice>
    var pending: Option<Utterance>
    var spoken: seq<Utterance>

    /** The object's fields as one `Synth` value. */
    function State(): Synth
      reads this
    {
      Synth(available, catalog, pending, spoken)
    }

    /** A handler is only ever installed on a host that has synthesis. */
    ghost predicate Valid()
      reads this
    {
      available || pending.None?
    }

    /** A host, with or without synthesis, whose catalog is `catalog`, before
        any call to `speak`. */
    constructor (available: bool, catalog: seq<Voice>)
      ensures State() == Synth(available, catalog, None, [])
      ensures Valid()
    {
      this.available := available;
      this.catalog := catalog;
      this.pending := None;
      this.spoken := [];
    }

    /** `speak(text, lang)`. */
    method Speak(text: string, lang: string)
      requires Valid()
      modifies this
      ensures Valid()
      ensures State() == SpeakStep(old(State()), text, lang)
    {
      if !available {
        return;
      }
      var u := NewUtterance(text, lang);
      if |catalog| == 0 {
        pending := Some(u);
      } else {
        spoken := spoken + [Voiced(u, catalog)];
      }
    }

    /** The catalog changes and `voiceschanged` fires. */
    method VoicesChanged(newCatalog: seq<Voice>)
      requires Valid()
      modifies this
      ensures Valid()
      ensures State() == VoicesChangedStep(old(State()), newCatalog)
    {
      catalog := newCatalog;
      match pending {
        case None =>
        case Some(u) =>
          var u' := Voiced(u, catalog);
          pending := Some(u');
          spoken := spoken + [u'];
      }
    }
  }
}
