/** The wire form of a message (redis_bot/lib.py, `mess_encode` and
    `mess_decode`): every value goes through UTF-8 and then base 64, key by
    key. The JSON object that carries the result is modelled by the map
    itself. */
module Codec {
  import opened Wrappers
  import opened Messages
  import Utf8
  import Base64

  /** The decoded JSON object: field name to base-64 text. */
  type Wire = map<string, string>

  /** `base64.b64encode(value.encode("utf-8")).decode("utf-8")` */
  function EncodeValue(v: string): (r: string)
    ensures |r| % 4 == 0
    ensures r == "" <==> v == ""
  {
    Base64.Encode(Utf8.Encode(v))
  }

  /** `base64.b64decode(value).decode("utf-8")`; None when either step raises. */
  function DecodeValue(w: string): (r: Option<string>)
    ensures r.Some? ==> |w| % 4 == 0
    ensures w == "" ==> r == Some("")
  {
    match Base64.Decode(w)
    case None => None
    case Some(b) => Utf8.Decode(b)
  }

  lemma DecodeEncodeValue(v: string)
    ensures DecodeValue(EncodeValue(v)) == Some(v)
  {
    Utf8.DecodeEncode(v);
    Base64.DecodeEncode(Utf8.Encode(v));
  }

  /** `mess_encode`: the same keys, each value encoded on its own. */
  function MessEncode(m: Message): (w: Wire)
    ensures w.Keys == m.Keys
  {
    map k | k in m :: EncodeValue(m[k])
  }

  /** `mess_decode`: None when some value fails to decode (the comprehension
      raises), otherwise the same keys with every value decoded. */
  function MessDecode(w: Wire): (r: Option<Message>)
    ensures r.Some? <==> forall k :: k in w ==> DecodeValue(w[k]).Some?
    ensures r.Some? ==> r.value.Keys == w.Keys
  {
    if forall k :: k in w ==> DecodeValue(w[k]).Some?
    then Some(map k | k in w :: DecodeValue(w[k]).value)
    else None
  }

  /** Each encoded value depends on the value under the same key and on
      nothing else in the message. */
  lemma EncodePerKey(m1: Message, m2: Message, k: string)
    requires k in m1 && k in m2 && m1[k] == m2[k]
    ensures MessEncode(m1)[k] == MessEncode(m2)[k] == EncodeValue(m1[k])
  {
  }

  /** A decoded value is the decoding of the wire value under the same key. */
  lemma DecodePerKey(w: Wire, k: string)
    requires MessDecode(w).Some? && k in w
    ensures DecodeValue(w[k]) == Some(MessDecode(w).value[k])
  {
  }

  /** The round-trip law: decoding an encoded message gives it back. */
  lemma DecodeEncode(m: Message)
    ensures MessDecode(MessEncode(m)) == Some(m)
  {
    var w := MessEncode(m);
    forall k | k in w ensures DecodeValue(w[k]) == Some(m[k]) {
      DecodeEncodeValue(m[k]);
    }
    assert MessDecode(w).Some?;
    assert MessDecode(w).value == m;
  }

  /** Distinct messages have distinct wire forms. */
  lemma EncodeInjective(m1: Message, m2: Message)
    requires MessEncode(m1) == MessEncode(m2)
    ensures m1 == m2
  {
    DecodeEncode(m1);
    DecodeEncode(m2);
  }
}
