/** The constants of the seven generated classes, as they stand in Proto/user_auth.pb.cc. */
module AuthCode {
  import opened AuthProto
  import opened GeneratedCode

  /** `auth::Register_Ver` */
  const REGISTER_VER_CODE := Code(0,
    [Case(1, 10, 0, ReadText), Case(2, 16, 1, ReadBool), Case(3, 26, 2, ReadText),
      Case(4, 34, 3, ReadText)],
    [(1, 0), (2, 1), (3, 2), (4, 3)],
    [0, 2, 3, 1])

  /** `auth::Login_Ver` */
  const LOGIN_VER_CODE := Code(0,
    [Case(1, 8, 0, ReadBool), Case(2, 18, 1, ReadText), Case(3, 26, 2, ReadText),
      Case(4, 34, 3, ReadText)],
    [(1, 0), (2, 1), (3, 2), (4, 3)],
    [1, 2, 3, 0])

  /** `auth::RegisterRequest` */
  const REGISTER_REQUEST_CODE := Code(0,
    [Case(1, 10, 0, ReadText), Case(2, 18, 1, ReadText), Case(3, 26, 2, ReadText),
      Case(4, 34, 3, ReadText), Case(5, 42, 4, ReadText)],
    [(1, 0), (2, 1), (3, 2), (4, 3), (5, 4)],
    [0, 1, 2, 3, 4])

  /** `auth::RegisterResponse` */
  const REGISTER_RESPONSE_CODE := Code(0,
    [Case(1, 8, 0, ReadBool), Case(2, 18, 1, ReadText), Case(4, 34, 2, ReadText)],
    [(1, 0), (2, 1), (4, 2)],
    [1, 2, 0])

  /** `auth::LogInRequest` */
  const LOGIN_REQUEST_CODE := Code(0,
    [Case(1, 8, 0, ReadEnum), Case(2, 18, 1, ReadText), Case(3, 26, 2, ReadText),
      Case(4, 34, 3, ReadText), Case(5, 42, 4, ReadText)],
    [(1, 0), (2, 1), (3, 2), (4, 3), (5, 4)],
    [1, 2, 3, 4, 0])

  /** `auth::LogInResponse` */
  const LOGIN_RESPONSE_CODE := Code(0,
    [Case(1, 8, 0, ReadInt32)],
    [(1, 0)],
    [0])

  /** `auth::Auth` */
  const AUTH_CODE := Code(1,
    [Case(1, 8, 0, ReadEnum), Case(2, 18, 1, ReadMessage(REGISTER_REQUEST_CODE)),
      Case(3, 26, 2, ReadMessage(REGISTER_RESPONSE_CODE)),
      Case(4, 34, 3, ReadMessage(LOGIN_REQUEST_CODE)),
      Case(5, 42, 4, ReadMessage(LOGIN_RESPONSE_CODE)),
      Case(6, 50, 5, ReadMessage(REGISTER_VER_CODE)), Case(7, 58, 6, ReadMessage(LOGIN_VER_CODE)),
      Case(8, 66, 7, ReadText)],
    [(1, 0), (2, 1), (3, 2), (4, 3), (5, 4), (6, 5), (7, 6), (8, 7)],
    [7, 1, 2, 3, 4, 5, 6, 0])

  // Each generated class has the switch, tags, print order and size order its .proto message asks for.

  lemma RegisterVerConforms()
    ensures Conforms(REGISTER_VER_CODE, REGISTER_VER)
  {
    SchemasValid();
  }

  lemma LoginVerConforms()
    ensures Conforms(LOGIN_VER_CODE, LOGIN_VER)
  {
    SchemasValid();
  }

  lemma RegisterRequestConforms()
    ensures Conforms(REGISTER_REQUEST_CODE, REGISTER_REQUEST)
  {
    SchemasValid();
  }

  lemma RegisterResponseConforms()
    ensures Conforms(REGISTER_RESPONSE_CODE, REGISTER_RESPONSE)
  {
    SchemasValid();
  }

  lemma LogInRequestConforms()
    ensures Conforms(LOGIN_REQUEST_CODE, LOGIN_REQUEST)
  {
    SchemasValid();
  }

  lemma LogInResponseConforms()
    ensures Conforms(LOGIN_RESPONSE_CODE, LOGIN_RESPONSE)
  {
    SchemasValid();
  }

  lemma AuthCasesConform(i: nat)
    requires i < 8
    ensures CaseConforms(AUTH_CODE.cases[i], AUTH[i], i, 1)
  {
    RegisterRequestConforms();
    RegisterResponseConforms();
    LogInRequestConforms();
    LogInResponseConforms();
    RegisterVerConforms();
    LoginVerConforms();
    hide Schema.ValidSchema, Conforms;
  }

  lemma AuthConforms()
    ensures Conforms(AUTH_CODE, AUTH)
  {
    SchemasValid();
    forall i | 0 <= i < 8 ensures CaseConforms(AUTH_CODE.cases[i], AUTH[i], i, 1) {
      AuthCasesConform(i);
    }
    hide CaseConforms, Schema.ValidSchema;
  }
}
