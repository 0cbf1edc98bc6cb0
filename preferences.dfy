/** The two settings the script keeps in the browser's string-keyed store
    (script.js lines 4-20): whether replies are spoken, and the voice
    language. The store is a map from key to string; `<select>`'s current
    value is a field beside it. */
module Preferences {

  import opened Wrappers

  const SpeakEnabledKey: string := "mini_chat_tts_enabled"
  const VoiceLangKey: string := "mini_chat_voice_lang"

  /** The language used when neither the store nor the select holds one. */
  const DefaultVoiceLang: string := "en-US"

  /** `getItem`: the stored string, or nothing when the key was never set. */
  function Lookup(items: map<string, string>, key: string): Option<string> {
    if key in items then Some(items[key]) else None
  }

  /** JavaScript truthiness of what `getItem` returns: `null` and `''` are falsy. */
  predicate Truthy(stored: Option<string>) {
    stored.Some? && stored.value != ""
  }

  /** How `setSpeakEnabled` writes the flag: reading back what it writes
      gives the flag, for both values. */
  function EncodeFlag(on: bool): (s: string)
    ensures DecodeFlag(Some(s)) == on
  {
    if on then "1" else "0"
  }

  /** How `getSpeakEnabled` reads the flag: strict equality with `'1'`. */
  function DecodeFlag(stored: Option<string>): bool {
    stored == Some("1")
  }

  /** An absent key, and every stored string other than `'1'` (including
      `'true'`, `'0'` and `''`), reads as off. */
  lemma FlagOffUnlessOne(stored: Option<string>)
    requires stored != Some("1")
    ensures !DecodeFlag(stored)
  {
  }

  /** `getVoiceLang`'s fallback chain: the stored value if truthy, else the
      select's value if truthy, else the default. */
  function ResolveVoiceLang(stored: Option<string>, selectValue: string): (lang: string)
    ensures lang != ""
    ensures Truthy(stored) ==> lang == stored.value
    ensures !Truthy(stored) && selectValue != "" ==> lang == selectValue
    ensures !Truthy(stored) && selectValue == "" ==> lang == DefaultVoiceLang
  {
    if Truthy(stored) then stored.value
    else if selectValue != "" then selectValue
    else DefaultVoiceLang
  }

  /** The store together with the language `<select>`. */
  class PreferenceStore {
    var items: map<string, string>
    var selectValue: string

    constructor (items: map<string, string>, selectValue: string)
      ensures this.items == items && this.selectValue == selectValue
    {
      this.items := items;
      this.selectValue := selectValue;
    }

    /** `getSpeakEnabled`. */
    function SpeakEnabled(): (on: bool)
      reads this
      ensures on <==> SpeakEnabledKey in items && items[SpeakEnabledKey] == "1"
    {
      DecodeFlag(Lookup(items, SpeakEnabledKey))
    }

    /** `setSpeakEnabled`: writes `'1'` or `'0'` under the flag's key. */
    method SetSpeakEnabled(on: bool)
      modifies this
      ensures items == old(items)[SpeakEnabledKey := EncodeFlag(on)]
      ensures selectValue == old(selectValue)
      ensures SpeakEnabled() == on
      ensures VoiceLang() == old(VoiceLang())
    {
      items := items[SpeakEnabledKey := EncodeFlag(on)];
    }

    /** `getVoiceLang`. */
    function VoiceLang(): (lang: string)
      reads this
      ensures lang != ""
      ensures VoiceLangKey in items && items[VoiceLangKey] != "" ==> lang == items[VoiceLangKey]
      ensures (VoiceLangKey !in items || items[VoiceLangKey] == "") ==>
        lang == if selectValue != "" then selectValue else DefaultVoiceLang
    {
      ResolveVoiceLang(Lookup(items, VoiceLangKey), selectValue)
    }

    /** `setVoiceLang`: stores the language and shows it in the select. Storing
        the empty string makes the next read fall through to the default,
        since the select then holds the empty string as well. */
    method SetVoiceLang(v: string)
      modifies this
      ensures items == old(items)[VoiceLangKey := v]
      ensures selectValue == v
      ensures VoiceLang() == if v != "" then v else DefaultVoiceLang
      ensures SpeakEnabled() == old(SpeakEnabled())
    {
      items := items[VoiceLangKey := v];
      selectValue := v;
    }
  }
}
