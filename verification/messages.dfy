/** `MessageBuilder` (phone_agent/model/client.py): builds the chat messages
    sent to the model and strips screenshots out of old ones. A message is a
    JSON object, modelled as a map from key to JSON value. */
module Messages {
  import opened Wrappers
  import opened Seqs

  /** A JSON value as Python's `json` module decodes it (floats left out). */
  datatype Json =
    | JNull
    | JBool(b: bool)
    | JInt(i: int)
    | JStr(s: string)
    | JList(items: seq<Json>)
    | JObject(fields: map<string, Json>)

  type Message = map<string, Json>

  const ImageUrlPrefix: string := "data:image/png;base64,"

  /** `{"role": role, "content": content}`. */
  function RoleMessage(role: string, content: Json): Message {
    map["role" := JStr(role), "content" := content]
  }

  /** `create_system_message`. */
  function SystemMessage(content: string): Message {
    RoleMessage("system", JStr(content))
  }

  /** `create_assistant_message`. */
  function AssistantMessage(content: string): Message {
    RoleMessage("assistant", JStr(content))
  }

  /** `{"type": "text", "text": text}`. */
  function TextPart(text: string): Json {
    JObject(map["type" := JStr("text"), "text" := JStr(text)])
  }

  /** `{"type": "image_url", "image_url": {"url": "data:image/png;base64,<image>"}}`. */
  function ImagePart(image: string): Json {
    JObject(map["type" := JStr("image_url"),
                "image_url" := JObject(map["url" := JStr(ImageUrlPrefix + image)])])
  }

  /** Python truthiness of the optional image argument: `None` and `""` are false. */
  predicate HasImage(image: Option<string>) {
    image.Some? && |image.value| > 0
  }

  /** `create_user_message`: an optional image part, then one text part. */
  function UserMessage(text: string, image: Option<string>): (m: Message)
    ensures m.Keys == {"role", "content"} && m["role"] == JStr("user")
    ensures m["content"].JList?
    ensures var parts := m["content"].items;
            && |parts| == (if HasImage(image) then 2 else 1)
            && parts[|parts| - 1] == TextPart(text)
            && (HasImage(image) ==> parts[0] == ImagePart(image.value))
            && CountText(parts) == 1
  {
    var parts := (if HasImage(image) then [ImagePart(image.value)] else []) + [TextPart(text)];
    assert Filter(Keep, [TextPart(text)]) == [TextPart(text)];
    assert HasImage(image) ==> !Keep(ImagePart(image.value)) && parts[1..] == [TextPart(text)];
    RoleMessage("user", JList(parts))
  }

  /** `item.get("type") == "text"`. */
  predicate IsTextItem(item: Json)
    requires item.JObject?
  {
    "type" in item.fields && item.fields["type"] == JStr("text")
  }

  predicate IsObject(item: Json) {
    item.JObject?
  }

  /** Whether `item` survives `remove_images_from_message`. Only objects are
      ever asked, since `.get` on anything else raises first. */
  predicate Keep(item: Json) {
    item.JObject? && IsTextItem(item)
  }

  /** Number of text parts in a list. */
  function CountText(items: seq<Json>): nat {
    |Filter(Keep, items)|
  }

  /** `remove_images_from_message`: when the content is a list, keep only the
      parts whose `type` is `"text"`. Calling `.get` on a part that is not a
      JSON object raises `AttributeError`. The source mutates its argument
      and returns it; here the updated message is returned. */
  function RemoveImages(m: Message): (r: Result<Message>)
    ensures r.Failure? <==> "content" in m && m["content"].JList?
                            && exists x :: x in m["content"].items && !IsObject(x)
    ensures r.Success? ==> r.value.Keys == m.Keys
    ensures r.Success? ==> forall k :: k in m && k != "content" ==> r.value[k] == m[k]
    ensures r.Success? && !("content" in m && m["content"].JList?) ==> r.value == m
    ensures r.Success? && "content" in m && m["content"].JList? ==>
              && r.value["content"].JList?
              && (forall x :: x in r.value["content"].items <==> x in m["content"].items && Keep(x))
              && (forall x :: multiset(r.value["content"].items)[x] ==
                                if Keep(x) then multiset(m["content"].items)[x] else 0)
              && Subseq(r.value["content"].items, m["content"].items)
  {
    if "content" in m && m["content"].JList? then
      var items := m["content"].items;
      if forall x :: x in items ==> IsObject(x) then
        Success(m["content" := JList(Filter(Keep, items))])
      else
        Failure("AttributeError: object has no attribute 'get'")
    else
      Success(m)
  }

  /** Removing images twice is the same as removing them once. */
  lemma RemoveImagesIdempotent(m: Message)
    requires RemoveImages(m).Success?
    ensures RemoveImages(RemoveImages(m).value) == RemoveImages(m)
  {
    var m' := RemoveImages(m).value;
    if "content" in m && m["content"].JList? {
      var kept := m'["content"].items;
      assert forall x :: x in kept ==> IsObject(x) && Keep(x);
      FilterAllOrNothing(Keep, kept);
      assert m'["content" := JList(Filter(Keep, kept))] == m';
    }
  }

  /** Removing the images from a user message leaves the message that was
      built without an image. */
  lemma RemoveImagesFromUserMessage(text: string, image: Option<string>)
    ensures RemoveImages(UserMessage(text, image)) == Success(UserMessage(text, None))
  {
    var m := UserMessage(text, image);
    var items := m["content"].items;
    var img := if image.Some? then image.value else "";
    assert !Keep(ImagePart(img));
    assert Keep(TextPart(text));
    assert forall x :: x in items ==> IsObject(x);
    if HasImage(image) {
      assert items == [ImagePart(img)] + [TextPart(text)];
      assert Filter(Keep, items) == Filter(Keep, [TextPart(text)]);
    } else {
      assert items == [TextPart(text)];
    }
    assert Filter(Keep, [TextPart(text)]) == [TextPart(text)];
    UserMessageWithoutImage(text);
    assert m == RoleMessage("user", JList(items));
    ReplaceContent("user", JList(items), JList([TextPart(text)]));
  }

  lemma UserMessageWithoutImage(text: string)
    ensures UserMessage(text, None) == RoleMessage("user", JList([TextPart(text)]))
  {
    assert [] + [TextPart(text)] == [TextPart(text)];
  }

  lemma ReplaceContent(role: string, a: Json, b: Json)
    ensures RoleMessage(role, a)["content" := b] == RoleMessage(role, b)
  {
  }

  /** Messages whose content is a string pass through unchanged. */
  lemma RemoveImagesKeepsStringContent(content: string)
    ensures RemoveImages(SystemMessage(content)) == Success(SystemMessage(content))
    ensures RemoveImages(AssistantMessage(content)) == Success(AssistantMessage(content))
  {
  }
}
