/** The `verifyJWT` middleware: reads the `authorization` header, takes its
    second space-separated field as the token and asks the token library
    whether it is valid.  The library is a parameter `verify` that maps a
    token to its decoded claims, or to `None` when it is malformed, expired
    or wrongly signed. */
module TokenGate {
  import opened Records

  predicate NoSpace(s: string) {
    forall i :: 0 <= i < |s| ==> s[i] != ' '
  }

  /** JavaScript's `s.split(" ")`: the pieces of `s` between single spaces,
      empty pieces included, so that there is always at least one. */
  function Split(s: string): (fields: seq<string>)
    ensures |fields| >= 1
    ensures forall k :: 0 <= k < |fields| ==> NoSpace(fields[k])
  {
    if |s| == 0 then [""]
    else
      var rest := Split(s[1..]);
      if s[0] == ' ' then [""] + rest
      else
        assert NoSpace([s[0]] + rest[0]) by {
          forall i | 0 <= i < |[s[0]] + rest[0]| ensures ([s[0]] + rest[0])[i] != ' ' {
            if i > 0 { assert ([s[0]] + rest[0])[i] == rest[0][i - 1]; }
          }
        }
        [[s[0]] + rest[0]] + rest[1..]
  }

  /** `fields.join(" ")`, the inverse of `Split`. */
  function Join(fields: seq<string>): string
    requires |fields| >= 1
  {
    if |fields| == 1 then fields[0] else fields[0] + " " + Join(fields[1..])
  }

  lemma {:induction false} JoinSplit(s: string)
    ensures Join(Split(s)) == s
  {
    if |s| > 0 {
      JoinSplit(s[1..]);
      var rest := Split(s[1..]);
      if s[0] == ' ' {
        assert ([""] + rest)[1..] == rest;
      } else if |rest| > 1 {
        assert ([[s[0]] + rest[0]] + rest[1..])[1..] == rest[1..];
        assert s == [s[0]] + s[1..];
      } else {
        assert s == [s[0]] + s[1..];
      }
    }
  }

  /** Splitting a space-free piece followed by a space and more text yields
      the piece followed by the fields of the rest. */
  lemma {:induction false} SplitAfterField(a: string, rest: string)
    requires NoSpace(a)
    ensures Split(a + " " + rest) == [a] + Split(rest)
  {
    if |a| == 0 {
      assert a + " " + rest == [' '] + rest;
      assert ([' '] + rest)[1..] == rest;
    } else {
      var s := a + " " + rest;
      assert s[0] == a[0];
      assert s[1..] == a[1..] + " " + rest;
      assert NoSpace(a[1..]) by {
        forall i | 0 <= i < |a[1..]| ensures a[1..][i] != ' ' { assert a[1..][i] == a[i + 1]; }
      }
      SplitAfterField(a[1..], rest);
      assert [a[0]] + a[1..] == a;
    }
  }

  lemma {:induction false} SplitNoSpace(a: string)
    requires NoSpace(a)
    ensures Split(a) == [a]
  {
    if |a| > 0 {
      assert NoSpace(a[1..]) by {
        forall i | 0 <= i < |a[1..]| ensures a[1..][i] != ' ' { assert a[1..][i] == a[i + 1]; }
      }
      SplitNoSpace(a[1..]);
      assert [a[0]] + a[1..] == a;
    }
  }

  /** `Split` is the inverse of `Join` on space-free fields. */
  lemma {:induction false} SplitJoin(fields: seq<string>)
    requires |fields| >= 1
    requires forall k :: 0 <= k < |fields| ==> NoSpace(fields[k])
    ensures Split(Join(fields)) == fields
  {
    if |fields| == 1 {
      SplitNoSpace(fields[0]);
    } else {
      SplitJoin(fields[1..]);
      SplitAfterField(fields[0], Join(fields[1..]));
    }
  }

  /** `header.split(" ")[1]`: `None` stands for `undefined` when the header
      holds no space. */
  function TokenField(header: string): (token: Option<string>)
    ensures token.Some? <==> exists k :: 0 <= k < |header| && header[k] == ' '
  {
    var fields := Split(header);
    JoinSplit(header);
    if |fields| >= 2 then
      assert header[|fields[0]|] == ' ';
      Some(fields[1])
    else
      assert NoSpace(header);
      None
  }

  /** `verifyJWT`: a missing or empty header is 401 "Unauthorized Access"; a
      token the library rejects is 403 "Access Forbidden", and so is a missing
      or empty token, which the library refuses before looking at it; a valid
      token proceeds with its decoded claims. */
  function VerifyJwt(header: Option<string>, verify: string -> Option<Claims>): (d: Decision<Claims>)
    ensures !d.Unhandled?
    ensures d == Reject(Unauthorized, UnauthorizedMessage) <==> header == None || header == Some("")
    ensures d.Reject? && d.status != Unauthorized ==> d == Reject(Forbidden, ForbiddenMessage)
    ensures d.Proceed? <==>
              header.Some? && TokenField(header.value).Some? && TokenField(header.value).value != "" &&
              verify(TokenField(header.value).value).Some?
    ensures d.Proceed? ==> Some(d.value) == verify(TokenField(header.value).value)
  {
    if header == None || header.value == "" then
      Reject(Unauthorized, UnauthorizedMessage)
    else
      match TokenField(header.value)
      case None => Reject(Forbidden, ForbiddenMessage)
      case Some(token) =>
        if token == "" then Reject(Forbidden, ForbiddenMessage)
        else match verify(token)
        case None => Reject(Forbidden, ForbiddenMessage)
        case Some(claims) => Proceed(claims)
  }

  /** A header `"<scheme> <token>"` is decided by the token alone: it proceeds
      with the token's claims exactly when the token is non-empty and the
      library accepts it. */
  lemma BearerHeader(scheme: string, token: string, verify: string -> Option<Claims>)
    requires NoSpace(scheme) && NoSpace(token)
    ensures VerifyJwt(Some(scheme + " " + token), verify) ==
              if token == "" then Reject(Forbidden, ForbiddenMessage)
              else match verify(token)
                case Some(claims) => Proceed(claims)
                case None => Reject(Forbidden, ForbiddenMessage)
  {
    SplitAfterField(scheme, token);
    SplitNoSpace(token);
    assert (scheme + " " + token)[|scheme|] == ' ';
  }

  /** A header without a space carries no token and is always forbidden,
      whatever the library would say. */
  lemma HeaderWithoutToken(header: string, verify: string -> Option<Claims>)
    requires header != "" && NoSpace(header)
    ensures VerifyJwt(Some(header), verify) == Reject(Forbidden, ForbiddenMessage)
  {
    SplitNoSpace(header);
  }
}
