/**
 * The `authenticate` middleware of middleware/auth.js: the Authorization
 * header must start with "Bearer ", the token is the second segment of the
 * header split on ' ', and the request proceeds only with the claims that
 * jwt.verify decodes. Setting `req.user` and calling `next()` is the
 * `Admitted` result carrying those claims.
 */
module BearerAuth {
  import opened Wrappers
  import opened Collaborators

  const BEARER_PREFIX: string := "Bearer "
  const NO_TOKEN: string := "Unauthorized: No token provided"
  const BAD_TOKEN: string := "Unauthorized: Invalid or expired token"

  datatype Gate = Rejected(status: int, error: string) | Admitted(user: Claims)

  /** JavaScript's `s.split(sep)`: the pieces between separators, empty ones included. */
  function Split(s: string, sep: char): (parts: seq<string>)
    ensures |parts| >= 1
    decreases |s|
  {
    if s == [] then [""]
    else
      var rest := Split(s[1..], sep);
      if s[0] == sep then [""] + rest else [[s[0]] + rest[0]] + rest[1..]
  }

  /** The pieces joined back with the separator. */
  function Join(parts: seq<string>, sep: char): string
    requires |parts| >= 1
    decreases |parts|
  {
    if |parts| == 1 then parts[0] else parts[0] + [sep] + Join(parts[1..], sep)
  }

  /** The position of the first `sep` in `s`, or |s| when there is none. */
  function SeparatorAt(s: string, sep: char): (i: nat)
    ensures i <= |s| && sep !in s[..i] && (i < |s| ==> s[i] == sep)
    decreases |s|
  {
    if s == [] || s[0] == sep then 0
    else
      var j := SeparatorAt(s[1..], sep);
      assert s[..j + 1] == [s[0]] + s[1..][..j];
      j + 1
  }

  /** `authHeader.split(' ')[1]`, for a header that passed the prefix test. */
  function BearerToken(header: string): (token: string)
    requires |header| >= |BEARER_PREFIX| && header[..|BEARER_PREFIX|] == BEARER_PREFIX
    ensures var rest := header[|BEARER_PREFIX|..]; token == rest[..SeparatorAt(rest, ' ')]
  {
    var rest := header[|BEARER_PREFIX|..];
    assert header == "Bearer" + [' '] + rest;
    SplitAfterWord("Bearer", ' ', rest);
    SplitHead(rest, ' ');
    Split(header, ' ')[1]
  }

  function Authenticate(header: Option<string>, verify: (string, nat) -> Option<Claims>, now: nat): (g: Gate)
    ensures (header.None? || |header.value| < |BEARER_PREFIX| || header.value[..|BEARER_PREFIX|] != BEARER_PREFIX)
            ==> g == Rejected(401, NO_TOKEN)
    ensures g.Rejected? ==> g.status == 401
  {
    match header
    case None => Rejected(401, NO_TOKEN)
    case Some(h) =>
      if |h| < |BEARER_PREFIX| || h[..|BEARER_PREFIX|] != BEARER_PREFIX then Rejected(401, NO_TOKEN)
      else match verify(BearerToken(h), now)
        case None => Rejected(401, BAD_TOKEN)
        case Some(claims) => Admitted(claims)
  }

  /** The first piece is everything up to the first separator. */
  lemma {:induction false} SplitHead(s: string, sep: char)
    ensures Split(s, sep)[0] == s[..SeparatorAt(s, sep)]
    decreases |s|
  {
    if s != [] && s[0] != sep {
      SplitHead(s[1..], sep);
      assert s[..SeparatorAt(s, sep)] == [s[0]] + s[1..][..SeparatorAt(s[1..], sep)];
    }
  }

  /** A separator-free word followed by the separator contributes exactly one piece. */
  lemma {:induction false} SplitAfterWord(w: string, sep: char, t: string)
    requires sep !in w
    ensures Split(w + [sep] + t, sep) == [w] + Split(t, sep)
    decreases |w|
  {
    if w == [] {
      assert ([] + [sep] + t)[1..] == t;
    } else {
      assert (w + [sep] + t)[1..] == w[1..] + [sep] + t;
      SplitAfterWord(w[1..], sep, t);
      assert [w[0]] + w[1..] == w;
    }
  }

  /** No piece contains the separator, and joining the pieces gives the string back. */
  lemma {:induction false} SplitJoin(s: string, sep: char)
    ensures forall i :: 0 <= i < |Split(s, sep)| ==> sep !in Split(s, sep)[i]
    ensures Join(Split(s, sep), sep) == s
    decreases |s|
  {
    if s != [] {
      var rest := Split(s[1..], sep);
      SplitJoin(s[1..], sep);
      if s[0] == sep {
        assert Split(s, sep)[1..] == rest;
      } else {
        var parts := Split(s, sep);
        assert parts[1..] == rest[1..];
        if |rest| > 1 {
          assert Join(rest, sep) == rest[0] + [sep] + Join(rest[1..], sep);
        }
        assert s == [s[0]] + s[1..];
      }
    }
  }

  /**
   * The token the middleware verifies is the text after "Bearer " up to the
   * next space (or the end of the header).
   */
  lemma BearerTokenShape(t: string)
    ensures BearerToken(BEARER_PREFIX + t) == t[..SeparatorAt(t, ' ')]
  {
    assert BEARER_PREFIX + t == "Bearer" + [' '] + t;
    SplitAfterWord("Bearer", ' ', t);
    SplitHead(t, ' ');
  }

  /** A header "Bearer <t>" is admitted exactly when its token verifies, with the verified claims. */
  lemma AuthenticateBearer(t: string, verify: (string, nat) -> Option<Claims>, now: nat)
    ensures var token := t[..SeparatorAt(t, ' ')];
            Authenticate(Some(BEARER_PREFIX + t), verify, now)
            == if verify(token, now).None? then Rejected(401, BAD_TOKEN) else Admitted(verify(token, now).value)
  {
    assert (BEARER_PREFIX + t)[..|BEARER_PREFIX|] == BEARER_PREFIX;
    BearerTokenShape(t);
  }
}
