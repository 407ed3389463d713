/** Identity resolution (backend/src/auth.ts): the bearer token is taken out
    of the `Authorization` header, verified, and resolved to a user row.
    Every failure resolves to "no user"; nothing is thrown to the caller. */
module Auth {
  import opened Wrappers
  import opened Schema
  import opened Crypto
  import opened Seqs
  import opened Prisma

  /** A user row without its password: the id, email and name that the
      context lookup selects (auth.ts:18-21). */
  datatype AuthUser = AuthUser(id: Id, email: string, name: string)

  function Project(u: User): AuthUser {
    AuthUser(u.id, u.email, u.name)
  }

  /** The per-request context handed to every resolver. */
  datatype Context = Context(user: Option<AuthUser>)

  const BearerPrefix: string := "Bearer "

  predicate OccursAt(s: string, pat: string, i: nat) {
    i + |pat| <= |s| && s[i..i + |pat|] == pat
  }

  /** `s.indexOf(pat)`: the first position at which `pat` occurs in `s`. */
  function IndexOf(s: string, pat: string): (r: Option<nat>)
    ensures r.Some? ==> OccursAt(s, pat, r.value)
    ensures r.Some? ==> forall j :: 0 <= j < r.value ==> !OccursAt(s, pat, j)
    ensures r.None? ==> forall j: nat :: !OccursAt(s, pat, j)
  {
    if OccursAt(s, pat, 0) then Some(0)
    else if s == [] then None
    else
      var r := IndexOf(s[1..], pat);
      assert forall j: nat :: OccursAt(s, pat, j) ==> j > 0 && OccursAt(s[1..], pat, j - 1) by {
        forall j: nat | OccursAt(s, pat, j) ensures j > 0 && OccursAt(s[1..], pat, j - 1) {
          assert s[1..][j - 1..j - 1 + |pat|] == s[j..j + |pat|];
        }
      }
      match r
      case None => None
      case Some(i) =>
        assert OccursAt(s, pat, i + 1) by {
          assert s[1..][i..i + |pat|] == s[i + 1..i + 1 + |pat|];
        }
        Some(i + 1)
  }

  /** `s.replace(pat, rep)` with a string pattern: only the first occurrence is replaced. */
  function ReplaceFirst(s: string, pat: string, rep: string): string {
    match IndexOf(s, pat)
    case None => s
    case Some(i) => s[..i] + rep + s[i + |pat|..]
  }

  /** The token of a request (auth.ts:30): a missing header gives the empty
      string; otherwise the first occurrence of "Bearer " is cut out,
      wherever it stands, and the rest is kept as it is. */
  function ExtractToken(header: Option<string>): (token: string)
    ensures header.None? ==> token == ""
    ensures header.Some? && IndexOf(header.value, BearerPrefix).None? ==> token == header.value
    ensures header.Some? && IndexOf(header.value, BearerPrefix).Some? ==>
              var i := IndexOf(header.value, BearerPrefix).value;
              |token| == |header.value| - |BearerPrefix| &&
              header.value == token[..i] + BearerPrefix + token[i..]
  {
    match header
    case None => ""
    case Some(h) =>
      var t := ReplaceFirst(h, BearerPrefix, "");
      assert IndexOf(h, BearerPrefix).Some? ==>
               var i := IndexOf(h, BearerPrefix).value;
               t[..i] == h[..i] && t[i..] == h[i + |BearerPrefix|..] &&
               h == h[..i] + h[i..i + |BearerPrefix|] + h[i + |BearerPrefix|..];
      // The fallback to the empty string changes nothing: an empty result is already empty.
      t
  }

  /** A header of the form `Bearer <token>` yields exactly the token after the prefix. */
  lemma BearerHeaderToken(token: string)
    ensures ExtractToken(Some(BearerPrefix + token)) == token
  {
    var h := BearerPrefix + token;
    assert OccursAt(h, BearerPrefix, 0) by { assert h[..|BearerPrefix|] == BearerPrefix; }
    assert h[|BearerPrefix|..] == token;
  }

  /** `getUser(token)`: `null` for an empty token, a failed verification, or
      a verified id with no user row; otherwise that user's projection. */
  function GetUser(token: string, tokens: TokenScheme, users: seq<User>): (r: Option<AuthUser>)
    ensures token == "" ==> r == None
    ensures r.Some? <==> token != "" && tokens.verify(token).Some? &&
                         UserById(users, tokens.verify(token).value).Some?
    ensures r.Some? ==> exists u :: u in users && u.id == tokens.verify(token).value && r.value == Project(u)
  {
    if token == "" then None
    else match tokens.verify(token)
      case None => None
      case Some(userId) =>
        match UserById(users, userId)
        case None => None
        case Some(u) => Some(Project(u))
  }

  /** The empty-token guard answers before any verification or lookup: the
      result does not depend on the token scheme or on the user table. */
  lemma EmptyTokenNoLookup(tokens1: TokenScheme, users1: seq<User>, tokens2: TokenScheme, users2: seq<User>)
    ensures GetUser("", tokens1, users1) == GetUser("", tokens2, users2) == None
  {
  }

  /** A token signed for an existing user resolves to exactly that user. */
  lemma SignedTokenResolves(tokens: TokenScheme, users: seq<User>, k: nat)
    requires Sound(tokens)
    requires Pairwise(users, DistinctUsers) && k < |users|
    ensures GetUser(tokens.sign(users[k].id), tokens, users) == Some(Project(users[k]))
  {
    assert tokens.sign(users[k].id) != "" && tokens.verify(tokens.sign(users[k].id)) == Some(users[k].id);
    UserByIdFinds(users, k);
  }

  /** A token signed for an id that has no user row resolves to nobody. */
  lemma OrphanTokenResolvesToNobody(tokens: TokenScheme, users: seq<User>, id: Id)
    requires Sound(tokens)
    requires forall j :: 0 <= j < |users| ==> users[j].id != id
    ensures GetUser(tokens.sign(id), tokens, users) == None
  {
    assert tokens.verify(tokens.sign(id)) == Some(id);
  }

  /** `createContext({ req })`: the context user is `getUser` of the header's token. */
  function CreateContext(header: Option<string>, tokens: TokenScheme, users: seq<User>): (ctx: Context)
    ensures header.None? ==> ctx.user == None
    ensures ctx.user.Some? ==> ctx.user.value.id in set u | u in users :: u.id
  {
    Context(GetUser(ExtractToken(header), tokens, users))
  }

  /** The full path a browser takes: `Authorization: Bearer <signed token>`
      gives a context holding exactly the signed-for user. */
  lemma BearerHeaderResolves(tokens: TokenScheme, users: seq<User>, k: nat)
    requires Sound(tokens)
    requires Pairwise(users, DistinctUsers) && k < |users|
    ensures CreateContext(Some(BearerPrefix + tokens.sign(users[k].id)), tokens, users).user == Some(Project(users[k]))
  {
    BearerHeaderToken(tokens.sign(users[k].id));
    SignedTokenResolves(tokens, users, k);
  }
}
