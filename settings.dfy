/** The user-data payload `update_settings` hands to the expansion engine. */
module Settings {

  /** A setting value as the settings file stores it (JSON). */
  datatype Json =
    | Null
    | Bool(b: bool)
    | Number(n: real)
    | Str(s: string)
    | Array(items: seq<Json>)
    | Object(fields: map<string, Json>)

  /** Python truthiness: None, False, zero and empty strings, lists and
      dictionaries are false; every other value is true. */
  predicate Truthy(v: Json) {
    match v
    case Null => false
    case Bool(b) => b
    case Number(n) => n != 0.0
    case Str(s) => s != ""
    case Array(items) => items != []
    case Object(fields) => fields != map[]
  }

  /** The setting names whose values the engine loads as user data. */
  const UserDataKeys: seq<string> := ["snippets", "preferences", "syntaxProfiles", "profiles"]

  /** The loop of `update_settings`: for each recognised key, copy the setting
      into the payload when the setting is present and truthy. The payload holds
      exactly those keys, each with the setting's own value. */
  method UserDataPayload(settings: map<string, Json>) returns (payload: map<string, Json>)
    ensures forall k :: k in payload <==> k in UserDataKeys && k in settings && Truthy(settings[k])
    ensures forall k :: k in payload ==> payload[k] == settings[k]
  {
    payload := map[];
    for i := 0 to |UserDataKeys|
      invariant forall k :: k in payload <==> k in UserDataKeys[..i] && k in settings && Truthy(settings[k])
      invariant forall k :: k in payload ==> payload[k] == settings[k]
    {
      var k := UserDataKeys[i];
      var data := if k in settings then settings[k] else Null;
      if Truthy(data) {
        payload := payload[k := data];
      }
    }
    assert UserDataKeys[..|UserDataKeys|] == UserDataKeys;
  }
}
