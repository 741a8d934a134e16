/**
 * `parseApiErrors`: turns whatever an API call failed with (an axios error,
 * an object carrying `data`, or a parsed JSON body) into per-field messages
 * and one global message, the shape the forms display.
 */
module ApiErrors {
  import opened Text
  import opened Js
  import opened Wrappers

  datatype ParsedErrors = ParsedErrors(fieldErrors: map<string, string>, globalError: string)

  const DetailKey := "detail"

  /**
   * `errOrData?.response?.data ?? errOrData?.data ?? errOrData`: the first of
   * the three candidates that is neither `null` nor `undefined`.
   */
  function Payload(errOrData: JsValue): (data: JsValue)
    ensures !Get(Get(errOrData, "response"), "data").Nullish() ==> data == Get(Get(errOrData, "response"), "data")
    ensures Get(Get(errOrData, "response"), "data").Nullish() && !Get(errOrData, "data").Nullish() ==> data == Get(errOrData, "data")
    ensures Get(Get(errOrData, "response"), "data").Nullish() && Get(errOrData, "data").Nullish() ==> data == errOrData
  {
    var fromResponse := Get(Get(errOrData, "response"), "data");
    if !fromResponse.Nullish() then fromResponse
    else
      var fromData := Get(errOrData, "data");
      if !fromData.Nullish() then fromData else errOrData
  }

  /**
   * `Object.entries(data)`: an object's properties, or an array's elements
   * under their indexes written in decimal.
   */
  function Entries(data: JsValue): (es: seq<(string, JsValue)>)
    ensures data.Obj? ==> es == data.entries
    ensures data.Arr? ==> |es| == |data.items|
    ensures data.Arr? ==> forall i :: 0 <= i < |es| ==> es[i] == (NatToString(i), data.items[i])
    ensures !data.IsObjectLike() ==> es == []
  {
    match data
    case Obj(entries) => entries
    case Arr(items) => seq(|items|, i requires 0 <= i < |items| => (NatToString(i), items[i]))
    case _ => []
  }

  /** A property is reported as a field error when it is not `detail` and holds an array or a string. */
  predicate Reported(entry: (string, JsValue)) {
    entry.0 != DetailKey && (entry.1.Arr? || entry.1.Str?)
  }

  /** The message of a reported property: an array's elements joined by a space, or the string itself. */
  function Message(v: JsValue): string
    requires v.Arr? || v.Str?
  {
    if v.Arr? then ArrayJoin(v.items, ' ') else v.s
  }

  /**
   * The loop over `Object.entries(data)`, each reported property written into
   * the map in turn. Every name becomes a key, `__proto__` included, which
   * JavaScript's prototype setter would swallow.
   */
  function CollectFieldErrors(entries: seq<(string, JsValue)>): (m: map<string, string>)
    ensures DetailKey !in m
    ensures forall k :: k in m <==> exists i :: 0 <= i < |entries| && entries[i].0 == k && Reported(entries[i])
  {
    if entries == [] then map[]
    else
      var init := entries[..|entries| - 1];
      var last := entries[|entries| - 1];
      var m := CollectFieldErrors(init);
      assert forall i :: 0 <= i < |init| ==> init[i] == entries[i];
      if Reported(last) then m[last.0 := Message(last.1)] else m
  }

  /** With distinct property names, each reported property's message is its entry's message. */
  lemma {:induction false} CollectFieldErrorsValues(entries: seq<(string, JsValue)>, i: nat)
    requires DistinctKeys(entries)
    requires i < |entries| && Reported(entries[i])
    ensures entries[i].0 in CollectFieldErrors(entries)
    ensures CollectFieldErrors(entries)[entries[i].0] == Message(entries[i].1)
  {
    var init := entries[..|entries| - 1];
    if i < |entries| - 1 {
      assert init[i] == entries[i];
      assert DistinctKeys(init);
      CollectFieldErrorsValues(init, i);
      assert entries[|entries| - 1].0 != entries[i].0;
    }
  }

  /**
   * `parseApiErrors`: a payload that is not an object or an array gives no
   * messages at all; otherwise `detail`, when it is a string, is the global
   * message and every other array or string property is a field message.
   */
  function ParseApiErrors(errOrData: JsValue): (r: ParsedErrors)
    ensures !Payload(errOrData).IsObjectLike() ==> r == ParsedErrors(map[], "")
    ensures DetailKey !in r.fieldErrors
    ensures Get(Payload(errOrData), DetailKey).Str? ==> r.globalError == Get(Payload(errOrData), DetailKey).s
    ensures !Get(Payload(errOrData), DetailKey).Str? ==> r.globalError == ""
  {
    var data := Payload(errOrData);
    if !data.Truthy() || !data.IsObjectLike() then ParsedErrors(map[], "")
    else
      var detail := Get(data, DetailKey);
      ParsedErrors(CollectFieldErrors(Entries(data)), if detail.Str? then detail.s else "")
  }

  /**
   * The field messages of an object payload are exactly its reported
   * properties, each with its own message; other properties are absent.
   */
  lemma ObjectFieldErrors(errOrData: JsValue, key: string)
    requires Payload(errOrData).Obj? && DistinctKeys(Payload(errOrData).entries)
    ensures var entries := Payload(errOrData).entries;
            var r := ParseApiErrors(errOrData);
            && (key in r.fieldErrors <==> Lookup(entries, key).Some? && Reported((key, Lookup(entries, key).value)))
            && (key in r.fieldErrors ==> r.fieldErrors[key] == Message(Lookup(entries, key).value))
  {
    var entries := Payload(errOrData).entries;
    var r := ParseApiErrors(errOrData);
    if key in r.fieldErrors {
      var i :| 0 <= i < |entries| && entries[i].0 == key && Reported(entries[i]);
      LookupDistinct(entries, i);
      CollectFieldErrorsValues(entries, i);
    }
    var found := Lookup(entries, key);
    if found.Some? && Reported((key, found.value)) {
      var i :| 0 <= i < |entries| && entries[i] == (key, found.value);
      assert Reported(entries[i]);
    }
  }

  /** An axios error carries the JSON body under `response.data`. */
  lemma AxiosErrorPayload(body: JsValue)
    requires !body.Nullish()
    ensures Payload(Obj([("response", Obj([("data", body)]))])) == body
  {
  }

  /** A DRF validation body: one message per field, the list joined by a space. */
  lemma ValidationExample()
    ensures ParseApiErrors(Obj([("cpf", Arr([Str("CPF inválido."), Str("Obrigatório.")])), ("detail", Num(1))]))
            == ParsedErrors(map["cpf" := "CPF inválido." + " " + "Obrigatório."], "")
  {
    var entries := [("cpf", Arr([Str("CPF inválido."), Str("Obrigatório.")])), ("detail", Num(1))];
    ArrayJoinTwo("CPF inválido.", "Obrigatório.", ' ');
    assert entries[..1] == [("cpf", Arr([Str("CPF inválido."), Str("Obrigatório.")]))];
    assert entries[..1][..0] == [];
  }
}
