/** A chat message as the router sees it once it has been decoded from the
    transport: a dictionary from field name to string value. */
module Messages {

  type Message = map<string, string>

  const BodyKey := "body"
  const RoomKey := "mucroom"
  const NickKey := "mucnick"
  const FromBotKey := "from_bot"
  const TextKey := "text"

  /** `mess.get(key, default)` */
  function Get(m: Message, key: string, default: string): (v: string)
    ensures key in m ==> v == m[key]
    ensures key !in m ==> v == default
  {
    if key in m then m[key] else default
  }

  /** Python truthiness of a string: only the empty string is false. */
  predicate Truthy(v: string) {
    v != ""
  }
}
