/** The message types of Proto/user_auth.proto, in the order the file declares their fields. */
module AuthProto {
  import opened Schema

  const REGISTER_VER: seq<Field> := [Field(1, Str), Field(2, Bool), Field(3, Str), Field(4, Str)]
  const LOGIN_VER: seq<Field> := [Field(1, Bool), Field(2, Str), Field(3, Str), Field(4, Str)]
  const REGISTER_REQUEST: seq<Field> := [Field(1, Str), Field(2, Str), Field(3, Str), Field(4, Str), Field(5, Str)]
  const REGISTER_RESPONSE: seq<Field> := [Field(1, Bool), Field(2, Str), Field(4, Str)]
  const LOGIN_REQUEST: seq<Field> := [Field(1, Enum), Field(2, Str), Field(3, Str), Field(4, Str), Field(5, Str)]
  const LOGIN_RESPONSE: seq<Field> := [Field(1, Int32)]
  const AUTH: seq<Field> := [
    Field(1, Enum), Field(2, Message(REGISTER_REQUEST)), Field(3, Message(REGISTER_RESPONSE)), Field(4, Message(LOGIN_REQUEST)),
    Field(5, Message(LOGIN_RESPONSE)), Field(6, Message(REGISTER_VER)), Field(7, Message(LOGIN_VER)), Field(8, Str)]

  /** Field numbers are in range and distinct in every message type. */
  lemma SchemasValid()
    ensures ValidSchema(REGISTER_VER)
    ensures ValidSchema(LOGIN_VER)
    ensures ValidSchema(REGISTER_REQUEST)
    ensures ValidSchema(REGISTER_RESPONSE)
    ensures ValidSchema(LOGIN_REQUEST)
    ensures ValidSchema(LOGIN_RESPONSE)
    ensures ValidSchema(AUTH)
  {
    NestedValid();
    hide ValidSchema;
    AuthValid();
  }

  lemma NestedValid()
    ensures ValidSchema(REGISTER_VER) && ValidSchema(LOGIN_VER) && ValidSchema(LOGIN_RESPONSE)
    ensures ValidSchema(REGISTER_REQUEST) && ValidSchema(REGISTER_RESPONSE) && ValidSchema(LOGIN_REQUEST)
  {
  }

  lemma AuthValid()
    ensures ValidSchema(AUTH)
  {
    NestedValid();
  }
}
