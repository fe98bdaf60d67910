/**
 User registration (pkg/userserver/handler_registeruser.go): the request
 validator and the order of the handler's checks. Decoding the JSON body,
 bcrypt and the database connection are parameters standing for their
 outcomes.
 */
module Registration {
  import opened Wrappers
  import opened GoStrings

  datatype RegisterUserRequest = RegisterUserRequest(email: string, password: string)

  datatype InvalidEmail = InvalidEmailFormat

  /**
   IsValid: splitting the e-mail on "@" must give exactly two parts and the
   second must contain a "."; the password is not looked at.
   */
  function IsValid(r: RegisterUserRequest): (v: Outcome<InvalidEmail>)
    ensures v == Pass ==> CountChar(r.email, '@') == 1
    ensures v.Fail? ==> v.error == InvalidEmailFormat
  {
    var tokens := Split(r.email, '@');
    if |tokens| != 2 || Index(tokens[1], ".") < 0 then Fail(InvalidEmailFormat) else Pass
  }

  /** `c` occurs in `s`, as strings.Index(s, [c]) >= 0 reports. */
  lemma IndexOfChar(s: string, c: char)
    ensures Index(s, [c]) >= 0 <==> c in s
  {
    if c in s {
      var i :| 0 <= i < |s| && s[i] == c;
      assert OccursAt(s, [c], i);
    }
    if Index(s, [c]) >= 0 {
      assert s[Index(s, [c])] == c;
    }
  }

  /**
   The validator without Split: exactly one "@", and a "." somewhere after
   it. Local part and domain may be empty.
   */
  predicate EmailShape(e: string) {
    CountChar(e, '@') == 1 && exists p | 0 <= p < |e| :: e[p] == '@' && '.' in e[p + 1..]
  }

  /** No "@" before the end of a prefix without one means the first "@" comes later. */
  lemma CountCharSplit(s: string, c: char, p: nat)
    requires p <= |s|
    ensures CountChar(s, c) == CountChar(s[..p], c) + CountChar(s[p..], c)
    decreases p
  {
    if p > 0 {
      CountCharSplit(s[1..], c, p - 1);
      assert s[1..][..p - 1] == s[..p][1..];
      assert s[1..][p - 1..] == s[p..];
    }
  }

  lemma CountCharZero(s: string, c: char)
    ensures CountChar(s, c) == 0 <==> c !in s
    ensures |s| > 0 && s[0] == c ==> (c !in s[1..] <==> CountChar(s, c) == 1)
  {
    if |s| > 0 {
      CountCharZero(s[1..], c);
      assert s == [s[0]] + s[1..];
    }
  }

  /** The validator accepts exactly the e-mails of that shape. */
  lemma IsValidMeansShape(r: RegisterUserRequest)
    ensures IsValid(r) == Pass <==> EmailShape(r.email)
  {
    var e := r.email;
    var tokens := Split(e, '@');
    if |tokens| == 2 {
      var p := |tokens[0]|;
      assert Join(tokens, "@") == tokens[0] + "@" + tokens[1];
      assert e == tokens[0] + "@" + tokens[1];
      assert e[p] == '@' && e[p + 1..] == tokens[1];
      IndexOfChar(tokens[1], '.');
      if EmailShape(e) {
        var q :| 0 <= q < |e| && e[q] == '@' && '.' in e[q + 1..];
        OnlyOneAt(e, p, q);
      }
    } else {
      assert !EmailShape(e);
    }
  }

  /** With a single "@" in `s`, two positions holding "@" are the same. */
  lemma OnlyOneAt(s: string, p: int, q: int)
    requires 0 <= p < |s| && 0 <= q < |s| && s[p] == '@' && s[q] == '@'
    requires CountChar(s, '@') == 1
    ensures p == q
  {
    if p != q {
      var lo := if p < q then p else q;
      var hi := if p < q then q else p;
      CountCharSplit(s, '@', lo + 1);
      assert s[..lo + 1][lo] == '@';
      assert s[lo + 1..][hi - lo - 1] == '@';
      CountCharZero(s[..lo + 1], '@');
      CountCharZero(s[lo + 1..], '@');
    }
  }

  /** The password plays no part in the decision. */
  lemma PasswordIgnored(email: string, pw1: string, pw2: string)
    ensures IsValid(RegisterUserRequest(email, pw1)) == IsValid(RegisterUserRequest(email, pw2))
  {
  }

  /** An empty local part is accepted. */
  lemma EmptyLocalPartAccepted()
    ensures IsValid(RegisterUserRequest("@a.b", "")) == Pass
  {
    IsValidMeansShape(RegisterUserRequest("@a.b", ""));
    assert CountChar("@a.b", '@') == 1 by {
      assert "@a.b"[1..] == "a.b" && "a.b"[1..] == ".b" && ".b"[1..] == "b" && "b"[1..] == "";
    }
    assert "@a.b"[0] == '@' && "@a.b"[1..][1] == '.';
  }

  /** A domain that is only a trailing "." is accepted. */
  lemma TrailingDotAccepted()
    ensures IsValid(RegisterUserRequest("a@.", "")) == Pass
  {
    IsValidMeansShape(RegisterUserRequest("a@.", ""));
    assert CountChar("a@.", '@') == 1 by {
      assert "a@."[1..] == "@." && "@."[1..] == "." && "."[1..] == "";
    }
    assert "a@."[1] == '@' && "a@."[2..][0] == '.';
  }

  /** A domain ending in "." is accepted. */
  lemma DomainEndingInDotAccepted()
    ensures IsValid(RegisterUserRequest("a@b.", "")) == Pass
  {
    IsValidMeansShape(RegisterUserRequest("a@b.", ""));
    assert CountChar("a@b.", '@') == 1 by {
      assert "a@b."[1..] == "@b." && "@b."[1..] == "b." && "b."[1..] == "." && "."[1..] == "";
    }
    assert "a@b."[1] == '@' && "a@b."[2..][1] == '.';
  }

  /** A domain without a "." is rejected. */
  lemma DotlessDomainRejected()
    ensures IsValid(RegisterUserRequest("a@b", "")).Fail?
  {
    IsValidMeansShape(RegisterUserRequest("a@b", ""));
    forall p | 0 <= p < 3 && "a@b"[p] == '@'
      ensures '.' !in "a@b"[p + 1..]
    {
      assert p == 1 && "a@b"[2..] == "b";
    }
  }

  /** Two "@" are rejected whatever follows them. */
  lemma TwoAtsRejected()
    ensures IsValid(RegisterUserRequest("a@b@c.d", "")).Fail?
  {
    IsValidMeansShape(RegisterUserRequest("a@b@c.d", ""));
    TwoAtsMisshapen();
  }

  lemma TwoAtsMisshapen()
    ensures !EmailShape("a@b@c.d")
  {
    CountCharZero("c.d", '@');
    assert "@c.d"[1..] == "c.d" && CountChar("@c.d", '@') == 1;
    assert "b@c.d"[1..] == "@c.d" && CountChar("b@c.d", '@') == 1;
    assert "@b@c.d"[1..] == "b@c.d" && CountChar("@b@c.d", '@') == 2;
    assert "a@b@c.d"[1..] == "@b@c.d" && CountChar("a@b@c.d", '@') == 2;
  }

  /** A stored user: the e-mail and the digest of the password. */
  datatype UserRecord = UserRecord(email: string, passwordDigest: string)

  datatype Status = Ok200 | BadRequest400 | InternalError500

  /**
   RegisterUserHandler: a failed connection is a 500; an undecodable body a
   400; an invalid request a 400 before the password is hashed; a failed
   hash a 500; a failed insert a 500; otherwise the user is stored and the
   default status 200 is sent. `decoded` is None when the body does not
   decode; `hash` is bcrypt's result for the password, None when it fails.
   */
  function RegisterUser(users: seq<UserRecord>, connected: bool, decoded: Option<RegisterUserRequest>,
                        hash: string -> Option<string>, saveFails: bool): (r: (seq<UserRecord>, Status))
    ensures !connected ==> r == (users, InternalError500)
    ensures connected && decoded.None? ==> r == (users, BadRequest400)
    ensures connected && decoded.Some? && IsValid(decoded.value).Fail? ==> r == (users, BadRequest400)
    ensures r.1 == Ok200 <==>
      && connected && decoded.Some? && IsValid(decoded.value) == Pass
      && hash(decoded.value.password).Some? && !saveFails
    ensures r.1 == Ok200 ==> r.0 == users + [UserRecord(decoded.value.email, hash(decoded.value.password).value)]
    ensures r.1 != Ok200 ==> r.0 == users
  {
    if !connected then (users, InternalError500)
    else if decoded.None? then (users, BadRequest400)
    else
      var input := decoded.value;
      if IsValid(input).Fail? then (users, BadRequest400)
      else match hash(input.password)
        case None => (users, InternalError500)
        case Some(digest) =>
          if saveFails then (users, InternalError500)
          else (users + [UserRecord(input.email, digest)], Ok200)
  }

  /** An invalid request never reaches the hasher: any hasher gives the same answer. */
  lemma InvalidNeverHashed(users: seq<UserRecord>, req: RegisterUserRequest,
                           h1: string -> Option<string>, h2: string -> Option<string>, saveFails: bool)
    requires !EmailShape(req.email)
    ensures RegisterUser(users, true, Some(req), h1, saveFails) == RegisterUser(users, true, Some(req), h2, saveFails) == (users, BadRequest400)
  {
    IsValidMeansShape(req);
  }
}
