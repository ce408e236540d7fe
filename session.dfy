/** The signed-in school of the client and its persistence in the browser's key-value storage:
    `lw_token` holds the token and `lw_school` the school as JSON. */
module Session {
  import opened Wrappers
  import opened Http

  const TokenKey: string := "lw_token"
  const SchoolKey: string := "lw_school"

  /** `JSON.stringify`, and `JSON.parse(text) || null` as far as a school is concerned: `None`
      for `null`, for any other falsy value and for text that does not parse. */
  datatype Codec = Codec(stringify: Option<Profile> -> string, parse: string -> Option<Profile>)

  /** Parsing gives back what was stringified, `null` included. */
  ghost predicate RoundTrips(codec: Codec) {
    forall x :: codec.parse(codec.stringify(x)) == x
  }

  /** The initial school: none without a non-empty token, else the parsed stored school, none
      when it is absent (`JSON.parse(null)` is `null`). */
  function StoredSchool(storage: map<string, string>, codec: Codec): (school: Option<Profile>)
    ensures (TokenKey !in storage || storage[TokenKey] == "") ==> school.None?
    ensures TokenKey in storage && storage[TokenKey] != "" && SchoolKey !in storage ==> school.None?
    ensures TokenKey in storage && storage[TokenKey] != "" && SchoolKey in storage ==> school == codec.parse(storage[SchoolKey])
  {
    if TokenKey !in storage || storage[TokenKey] == "" then None
    else if SchoolKey !in storage then None
    else codec.parse(storage[SchoolKey])
  }

  /** The storage after the effect that mirrors the school into `lw_school`. */
  function Mirrored(storage: map<string, string>, school: Option<Profile>, codec: Codec): (after: map<string, string>)
    ensures school.Some? ==> SchoolKey in after && after[SchoolKey] == codec.stringify(school)
    ensures school.None? ==> SchoolKey !in after
    ensures forall k :: k != SchoolKey ==> (k in after <==> k in storage) && (k in storage ==> after[k] == storage[k])
  {
    if school.Some? then storage[SchoolKey := codec.stringify(school)] else storage - {SchoolKey}
  }

  /** A mirrored school survives a reload while the token is there: the next start reads back
      the same school. */
  lemma ReloadRestores(storage: map<string, string>, school: Option<Profile>, codec: Codec)
    requires RoundTrips(codec)
    requires TokenKey in storage && storage[TokenKey] != ""
    ensures StoredSchool(Mirrored(storage, school, codec), codec) == school
  {
    var after := Mirrored(storage, school, codec);
    assert TokenKey != SchoolKey;
    assert TokenKey in after && after[TokenKey] == storage[TokenKey];
    if school.Some? {
      assert codec.parse(codec.stringify(school)) == school;
    }
  }

  /** Mirroring again changes nothing. */
  lemma MirrorIdempotent(storage: map<string, string>, school: Option<Profile>, codec: Codec)
    ensures Mirrored(Mirrored(storage, school, codec), school, codec) == Mirrored(storage, school, codec)
  {
  }

  class SchoolSession {
    var storage: map<string, string>
    var school: Option<Profile>
    const codec: Codec

    /** The provider starts from what the storage holds. */
    constructor (storage: map<string, string>, codec: Codec)
      ensures this.storage == storage && this.codec == codec
      ensures school == StoredSchool(storage, codec)
    {
      this.storage := storage;
      this.codec := codec;
      this.school := StoredSchool(storage, codec);
    }

    /** The effect run after each change of `school`. */
    method Mirror()
      modifies this
      ensures storage == Mirrored(old(storage), old(school), codec)
      ensures school == old(school)
    {
      if school.Some? {
        storage := storage[SchoolKey := codec.stringify(school)];
      } else {
        storage := storage - {SchoolKey};
      }
    }

    /** Sign-in: a non-empty token is stored, the school is stored when it is to be remembered,
        and it becomes the current school. */
    method SetAuth(token: Option<string>, info: Option<Profile>, remember: bool)
      modifies this
      ensures school == info
      ensures var withToken := if token.Some? && token.value != "" then old(storage)[TokenKey := token.value] else old(storage);
              storage == if remember then withToken[SchoolKey := codec.stringify(info)] else withToken
    {
      if token.Some? && token.value != "" {
        storage := storage[TokenKey := token.value];
      }
      if remember {
        storage := storage[SchoolKey := codec.stringify(info)];
      }
      school := info;
    }

    /** Sign-out: both keys go and there is no school. */
    method Logout()
      modifies this
      ensures storage == old(storage) - {TokenKey, SchoolKey}
      ensures school.None?
    {
      storage := storage - {TokenKey};
      storage := storage - {SchoolKey};
      school := None;
    }
  }

  /** The storage a sign-in and the mirroring effect leave behind. */
  function SignedIn(storage: map<string, string>, token: string, info: Option<Profile>, remember: bool, codec: Codec): map<string, string> {
    var withToken := if token != "" then storage[TokenKey := token] else storage;
    var stored := if remember then withToken[SchoolKey := codec.stringify(info)] else withToken;
    Mirrored(stored, info, codec)
  }

  /** After signing in with a token the school is restored at the next start, remembered or not,
      because the effect mirrors it anyway. */
  lemma SignInPersists(storage: map<string, string>, token: string, info: Option<Profile>, remember: bool, codec: Codec)
    requires RoundTrips(codec) && token != ""
    ensures StoredSchool(SignedIn(storage, token, info, remember, codec), codec) == info
  {
    var withToken := storage[TokenKey := token];
    var stored := if remember then withToken[SchoolKey := codec.stringify(info)] else withToken;
    assert TokenKey != SchoolKey;
    assert TokenKey in stored && stored[TokenKey] == token;
    ReloadRestores(stored, info, codec);
  }

  /** After signing out nothing is restored. */
  lemma SignOutForgets(storage: map<string, string>, codec: Codec)
    ensures StoredSchool(storage - {TokenKey, SchoolKey}, codec).None?
  {
  }
}
