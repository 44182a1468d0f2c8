/** The parts of token handling that are the service's own logic rather than
    the JWT library's: removing the `bearer ` marker from incoming text and
    gathering the claims read from a token into a dictionary. Signing,
    serialisation and parsing are the library's and appear only as the
    `read` parameter. */
module Jwt {
  import opened Results
  import Decimal

  /** One claim of a token: its type (the JSON property name) and its text. */
  datatype Claim = Claim(claimType: string, value: string)

  /** An unsigned `JwtSecurityToken`: its claims in order and its expiry
      instant in Unix seconds. */
  datatype Token = Token(claims: seq<Claim>, expires: int)

  /** The claims the JWT reader yields for a token written from `t`: the
      token's own claims followed by the `exp` claim carrying its expiry. */
  function Payload(t: Token): (r: seq<Claim>)
    ensures |r| == |t.claims| + 1 && r[..|t.claims|] == t.claims
    ensures r[|t.claims|].claimType == "exp"
    ensures Decimal.MinInt64 <= t.expires <= Decimal.MaxInt64 ==>
              Decimal.ParseInt64(r[|t.claims|].value) == Some(t.expires)
  {
    assert Decimal.MinInt64 <= t.expires <= Decimal.MaxInt64 ==>
             Decimal.ParseInt64(Decimal.IntText(t.expires)) == Some(t.expires) by {
      if Decimal.MinInt64 <= t.expires <= Decimal.MaxInt64 {
        Decimal.ParseIntText(t.expires);
      }
    }
    t.claims + [Claim("exp", Decimal.IntText(t.expires))]
  }

  const Bearer: string := "bearer "

  predicate MatchAt(s: string, pat: string, i: nat) {
    i + |pat| <= |s| && s[i..i + |pat|] == pat
  }

  ghost predicate Occurs(pat: string, s: string) {
    exists i: nat :: MatchAt(s, pat, i)
  }

  /** `s.Replace(pat, "")`: scanning left to right, every ordinal (case
      sensitive) occurrence of `pat` is dropped, and scanning resumes after it. */
  function RemoveAll(s: string, pat: string): (r: string)
    requires pat != []
    ensures |r| <= |s|
    decreases |s|
  {
    if |s| < |pat| then s
    else if s[..|pat|] == pat then RemoveAll(s[|pat|..], pat)
    else [s[0]] + RemoveAll(s[1..], pat)
  }

  /** The text `DecodeJwtToken` hands to the JWT reader. */
  function StripBearer(token: string): (r: string)
    ensures |r| <= |token|
    ensures r == token <==> !Occurs(Bearer, token)
  {
    RemoveAllUnchangedIff(token, Bearer);
    RemoveAll(token, Bearer)
  }

  lemma MatchAtShift(s: string, pat: string, i: nat)
    requires s != []
    ensures MatchAt(s, pat, i + 1) <==> MatchAt(s[1..], pat, i)
  {
    if i + 1 + |pat| <= |s| {
      assert s[i + 1..i + 1 + |pat|] == s[1..][i..i + |pat|];
    }
  }

  /** Removal leaves a string alone exactly when the pattern does not occur in
      it; when it does occur, the result is strictly shorter. */
  lemma {:induction false} RemoveAllUnchangedIff(s: string, pat: string)
    requires pat != []
    ensures RemoveAll(s, pat) == s <==> !Occurs(pat, s)
    ensures Occurs(pat, s) ==> |RemoveAll(s, pat)| < |s|
    decreases |s|
  {
    if |s| < |pat| {
      assert !Occurs(pat, s);
    } else if s[..|pat|] == pat {
      assert MatchAt(s, pat, 0);
    } else {
      RemoveAllUnchangedIff(s[1..], pat);
      assert !MatchAt(s, pat, 0);
      if Occurs(pat, s) {
        var i: nat :| MatchAt(s, pat, i);
        assert i > 0;
        MatchAtShift(s, pat, i - 1);
        assert Occurs(pat, s[1..]);
      } else {
        forall i: nat | MatchAt(s[1..], pat, i)
          ensures false
        {
          MatchAtShift(s, pat, i);
        }
        assert [s[0]] + s[1..] == s;
      }
    }
  }

  /** Where the pattern does not start, the first character is kept and the
      scan moves on by one character. */
  lemma RemoveAllKeeps(s: string, pat: string)
    requires pat != [] && s != [] && !MatchAt(s, pat, 0)
    ensures RemoveAll(s, pat) == [s[0]] + RemoveAll(s[1..], pat)
  {
    if |s| < |pat| {
      assert [s[0]] + s[1..] == s;
    }
  }

  lemma AppendAssoc(a: string, b: string, c: string)
    ensures a + (b + c) == (a + b) + c
  {
  }

  /** One step of the scan before any occurrence: if the tail splits after
      `i - 1` kept characters, the whole text splits after `i`. */
  lemma RemoveAllStep(s: string, pat: string, i: nat)
    requires pat != [] && 0 < i <= |s| && !MatchAt(s, pat, 0)
    requires RemoveAll(s[1..], pat) == s[1..][..i - 1] + RemoveAll(s[1..][i - 1..], pat)
    ensures RemoveAll(s, pat) == s[..i] + RemoveAll(s[i..], pat)
  {
    RemoveAllKeeps(s, pat);
    var kept, rest := s[1..][..i - 1], RemoveAll(s[i..], pat);
    assert s[1..][i - 1..] == s[i..];
    assert [s[0]] + kept == s[..i];
    AppendAssoc([s[0]], kept, rest);
  }

  /** An occurrence at the very start is dropped and scanning resumes after it. */
  lemma RemoveAllAtStart(s: string, pat: string)
    requires pat != [] && MatchAt(s, pat, 0)
    ensures RemoveAll(s, pat) == RemoveAll(s[|pat|..], pat)
  {
    assert s[..|pat|] == pat;
  }

  /** No occurrence before `i` in `s` means none before `i - 1` in its tail. */
  lemma NoMatchBeforeTail(s: string, pat: string, i: nat)
    requires s != [] && 0 < i
    requires forall j: nat :: j < i ==> !MatchAt(s, pat, j)
    ensures forall j: nat :: j < i - 1 ==> !MatchAt(s[1..], pat, j)
  {
    forall j: nat | j < i - 1
      ensures !MatchAt(s[1..], pat, j)
    {
      MatchAtShift(s, pat, j);
    }
  }

  /** Characters at which no occurrence starts are kept as they are. */
  lemma {:induction false} RemoveAllKeepsPrefix(s: string, pat: string, i: nat)
    requires pat != [] && i <= |s|
    requires forall j: nat :: j < i ==> !MatchAt(s, pat, j)
    ensures RemoveAll(s, pat) == s[..i] + RemoveAll(s[i..], pat)
    decreases i
  {
    if i == 0 {
      assert s[..0] == [] && s[0..] == s;
    } else {
      assert !MatchAt(s, pat, 0);
      NoMatchBeforeTail(s, pat, i);
      RemoveAllKeepsPrefix(s[1..], pat, i - 1);
      RemoveAllStep(s, pat, i);
    }
  }

  /** The leftmost occurrence, wherever it lies, is dropped: the text before
      it is kept as it is, and scanning resumes right after it. */
  lemma RemoveAllAtFirst(s: string, pat: string, i: nat)
    requires pat != [] && MatchAt(s, pat, i)
    requires forall j: nat :: j < i ==> !MatchAt(s, pat, j)
    ensures RemoveAll(s, pat) == s[..i] + RemoveAll(s[i + |pat|..], pat)
  {
    RemoveAllKeepsPrefix(s, pat, i);
    var u := s[i..];
    assert u[..|pat|] == s[i..i + |pat|];
    RemoveAllAtStart(u, pat);
    assert u[|pat|..] == s[i + |pat|..];
  }

  /** The first `bearer ` in the text is dropped wherever it stands; the
      text before it passes unchanged and the rest is processed the same way. */
  lemma StripBearerAtFirst(token: string, i: nat)
    requires MatchAt(token, Bearer, i)
    requires forall j: nat :: j < i ==> !MatchAt(token, Bearer, j)
    ensures StripBearer(token) == token[..i] + StripBearer(token[i + |Bearer|..])
  {
    RemoveAllAtFirst(token, Bearer, i);
  }

  /** A leading marker is removed together with every later occurrence. */
  lemma StripBearerPrefix(t: string)
    ensures StripBearer(Bearer + t) == StripBearer(t)
  {
    assert (Bearer + t)[..|Bearer|] == Bearer;
    assert (Bearer + t)[|Bearer|..] == t;
  }

  /** Compact JWT text has no spaces, so it passes through untouched, with or
      without the lower-case marker in front. */
  lemma StripBearerOfCompact(jwt: string)
    requires ' ' !in jwt
    ensures StripBearer(jwt) == jwt
    ensures StripBearer(Bearer + jwt) == jwt
  {
    forall i: nat
      ensures !MatchAt(jwt, Bearer, i)
    {
      if i + |Bearer| <= |jwt| {
        assert jwt[i..i + |Bearer|][6] == jwt[i + 6];
        assert jwt[i + 6] in jwt;
      }
    }
    RemoveAllUnchangedIff(jwt, Bearer);
    StripBearerPrefix(jwt);
  }

  /** The removal is ordinal and not anchored: an occurrence in the middle is
      dropped, and the capitalised scheme name `Bearer ` is not touched. */
  lemma StripBearerExamples()
    ensures StripBearer("x.bearer y") == "x.y"
    ensures StripBearer("Bearer x") == "Bearer x"
  {
    var s := "x.bearer y";
    assert s[..7][0] != Bearer[0];
    assert s[1..] == ".bearer y";
    assert s[1..][..7][0] != Bearer[0];
    assert s[1..][1..] == "bearer y";
    assert s[1..][1..][..7] == Bearer;
    assert s[1..][1..][7..] == "y";
    assert RemoveAll("y", Bearer) == "y";
    var t := "Bearer x";
    assert t[..7][0] != Bearer[0];
    assert t[1..] == "earer x";
    assert t[1..][..7][0] != Bearer[0];
    assert t[1..][1..] == "arer x";
    assert RemoveAll("arer x", Bearer) == "arer x";
  }

  predicate DistinctTypes(cs: seq<Claim>) {
    forall i, j :: 0 <= i < j < |cs| ==> cs[i].claimType != cs[j].claimType
  }

  function TypesOf(cs: seq<Claim>): set<string> {
    set i | 0 <= i < |cs| :: cs[i].claimType
  }

  lemma TypesOfCons(cs: seq<Claim>)
    requires cs != []
    ensures TypesOf(cs) == {cs[0].claimType} + TypesOf(cs[1..])
  {
    forall t | t in TypesOf(cs)
      ensures t in {cs[0].claimType} + TypesOf(cs[1..])
    {
      var i :| 0 <= i < |cs| && cs[i].claimType == t;
      if i > 0 {
        assert cs[1..][i - 1].claimType == t;
      }
    }
    forall t | t in TypesOf(cs[1..])
      ensures t in TypesOf(cs)
    {
      var i :| 0 <= i < |cs[1..]| && cs[1..][i].claimType == t;
      assert cs[i + 1].claimType == t;
    }
  }

  lemma DistinctTypesCons(cs: seq<Claim>)
    requires cs != []
    ensures DistinctTypes(cs) <==> DistinctTypes(cs[1..]) && cs[0].claimType !in TypesOf(cs[1..])
  {
    TypesOfCons(cs);
    if DistinctTypes(cs[1..]) && cs[0].claimType !in TypesOf(cs[1..]) {
      forall i, j | 0 <= i < j < |cs|
        ensures cs[i].claimType != cs[j].claimType
      {
        assert cs[j] == cs[1..][j - 1];
        if i > 0 {
          assert cs[i] == cs[1..][i - 1];
        }
      }
    }
    if DistinctTypes(cs) {
      forall j | 0 <= j < |cs[1..]|
        ensures cs[1..][j].claimType != cs[0].claimType
      {
        assert cs[1..][j] == cs[j + 1];
      }
    }
  }

  /** Adds the claims `cs` one by one to the dictionary `acc` with
      `Dictionary.Add`, which throws on the first type already a key. */
  function AddClaims(cs: seq<Claim>, acc: map<string, string>): (r: Result<map<string, string>, Error>)
    ensures r.Ok? ==> acc.Keys <= r.value.Keys
    decreases |cs|
  {
    if cs == [] then Ok(acc)
    else if cs[0].claimType in acc then Err(DuplicateClaim(cs[0].claimType))
    else AddClaims(cs[1..], acc[cs[0].claimType := cs[0].value])
  }

  /** Adding succeeds exactly when no type repeats and none is already a key;
      the result then holds the old entries and every added claim. */
  lemma {:induction false} AddClaimsOk(cs: seq<Claim>, acc: map<string, string>)
    ensures AddClaims(cs, acc).Ok? <==> DistinctTypes(cs) && TypesOf(cs) !! acc.Keys
    ensures AddClaims(cs, acc).Ok? ==>
              var m := AddClaims(cs, acc).value;
              && m.Keys == acc.Keys + TypesOf(cs)
              && (forall k :: k in acc ==> m[k] == acc[k])
              && (forall i :: 0 <= i < |cs| ==> m[cs[i].claimType] == cs[i].value)
    decreases |cs|
  {
    if cs == [] {
      assert TypesOf(cs) == {};
    } else {
      TypesOfCons(cs);
      DistinctTypesCons(cs);
      if cs[0].claimType !in acc {
        var acc' := acc[cs[0].claimType := cs[0].value];
        AddClaimsOk(cs[1..], acc');
        if AddClaims(cs, acc).Ok? {
          var m := AddClaims(cs, acc).value;
          forall i | 0 <= i < |cs|
            ensures m[cs[i].claimType] == cs[i].value
          {
            if i > 0 {
              assert cs[i] == cs[1..][i - 1];
            }
          }
        }
      }
    }
  }

  /** A failure comes at the first claim whose type is a key already or
      repeats an earlier claim of `cs`: every claim before it was added. */
  lemma {:induction false} AddClaimsErr(cs: seq<Claim>, acc: map<string, string>)
    requires AddClaims(cs, acc).Err?
    ensures exists i :: && 0 <= i < |cs|
                        && AddClaims(cs, acc).error == DuplicateClaim(cs[i].claimType)
                        && DistinctTypes(cs[..i]) && TypesOf(cs[..i]) !! acc.Keys
                        && (cs[i].claimType in acc || cs[i].claimType in TypesOf(cs[..i]))
    decreases |cs|
  {
    var e := AddClaims(cs, acc).error;
    if cs[0].claimType in acc {
      assert TypesOf(cs[..0]) == {};
      assert e == DuplicateClaim(cs[0].claimType);
    } else {
      var acc' := acc[cs[0].claimType := cs[0].value];
      AddClaimsErr(cs[1..], acc');
      var i :| && 0 <= i < |cs[1..]| && e == DuplicateClaim(cs[1..][i].claimType)
               && DistinctTypes(cs[1..][..i]) && TypesOf(cs[1..][..i]) !! acc'.Keys
               && (cs[1..][i].claimType in acc' || cs[1..][i].claimType in TypesOf(cs[1..][..i]));
      var p := cs[..i + 1];
      assert p[0] == cs[0] && p[1..] == cs[1..][..i];
      TypesOfCons(p);
      DistinctTypesCons(p);
      assert cs[i + 1] == cs[1..][i];
      assert cs[i + 1].claimType in acc || cs[i + 1].claimType in TypesOf(p);
    }
  }

  /** The `foreach`/`Dictionary.Add` loop of `DecodeJwtToken`: it succeeds
      exactly when no claim type repeats, and then maps every claim type to
      its value and holds nothing else; otherwise it names the type of the
      first claim that repeats an earlier one. */
  function CollectClaims(cs: seq<Claim>): (r: Result<map<string, string>, Error>)
    ensures r.Ok? <==> DistinctTypes(cs)
    ensures r.Ok? ==> r.value.Keys == TypesOf(cs)
    ensures r.Ok? ==> forall i :: 0 <= i < |cs| ==> r.value[cs[i].claimType] == cs[i].value
    ensures r.Err? ==> exists j :: && 0 <= j < |cs| && r.error == DuplicateClaim(cs[j].claimType)
                                   && DistinctTypes(cs[..j]) && cs[j].claimType in TypesOf(cs[..j])
    ensures r.Err? ==> exists i, j :: 0 <= i < j < |cs| && cs[i].claimType == cs[j].claimType
                                      && r.error == DuplicateClaim(cs[i].claimType)
  {
    var r := AddClaims(cs, map[]);
    AddClaimsOk(cs, map[]);
    if r.Err? then
      AddClaimsErr(cs, map[]);
      var j :| && 0 <= j < |cs| && r.error == DuplicateClaim(cs[j].claimType)
               && DistinctTypes(cs[..j]) && cs[j].claimType in TypesOf(cs[..j]);
      var i :| 0 <= i < |cs[..j]| && cs[..j][i].claimType == cs[j].claimType;
      assert 0 <= i < j < |cs| && cs[i].claimType == cs[j].claimType && r.error == DuplicateClaim(cs[i].claimType);
      r
    else
      r
  }

  /** `DecodeJwtToken`: drop every `bearer ` from the text, read the token's
      claims with the JWT reader (`None` when the reader throws), and gather
      them into a dictionary. */
  function DecodeJwtToken(read: string -> Option<seq<Claim>>, token: string): (r: Result<map<string, string>, Error>)
    ensures read(StripBearer(token)).None? ==> r == Err(MalformedToken)
    ensures r.Ok? <==> read(StripBearer(token)).Some? && DistinctTypes(read(StripBearer(token)).value)
    ensures r.Ok? ==> var cs := read(StripBearer(token)).value;
                      r.value.Keys == TypesOf(cs) &&
                      forall i :: 0 <= i < |cs| ==> r.value[cs[i].claimType] == cs[i].value
  {
    match read(StripBearer(token))
    case None => Err(MalformedToken)
    case Some(cs) => CollectClaims(cs)
  }
}
