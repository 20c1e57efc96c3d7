/**
 * The request guards of types.rs: the admin identity gate (`is_valid`,
 * `Admin::from_request`) and the `File-Name` header guard.
 */
module Guards {
  import opened Wrappers
  import opened Http
  import opened AllowList

  /** The one audience the verifier accepts (`GOOGLE_CLIENT_ID`). */
  const ClientId: string := "904165140417-upr6ca4hqgharv344ocq3dbrh7c3ns7k.apps.googleusercontent.com"

  const IdTokenHeader: string := "idToken"
  const FileNameHeader: string := "File-Name"

  /** The claims of an ID token as the identity provider reports them. */
  datatype IdInfo = IdInfo(sub: string, email: Option<string>)

  /**
   * The identity provider, whose network and cryptographic work is taken as given:
   * `inspect` is `Client::get_slow_unverified` (None when it fails), `verify` is
   * `IdInfo::verify` against the client's audience list.
   */
  datatype Provider = Provider(inspect: string -> Option<IdInfo>, verify: (IdInfo, seq<string>) -> bool)

  /**
   * What `is_valid` answers for `token`: a panic when the token cannot be inspected,
   * the subject when verification succeeds and the allow-list holds it, None otherwise.
   */
  function Admission(admins: string, provider: Provider, token: string): (r: Handled<Option<string>>)
    ensures r.Panicked? <==> provider.inspect(token).None?
    ensures r.Responded? && r.value.Some? ==>
      && Lists(admins, r.value.value)
      && forall i :: 0 <= i < |r.value.value| ==> '0' <= r.value.value[i] <= '9'
  {
    match provider.inspect(token)
    case None => Panicked
    case Some(info) =>
      if provider.verify(info, [ClientId]) && Lists(admins, info.sub) then
        ListedSubjectIsDigits(admins, info.sub);
        Responded(Some(info.sub))
      else Responded(None)
  }

  /**
   * `is_valid`: registers the audience, inspects the token (`expect` panics on failure),
   * normalises the allow-list in place and checks the subject against its segments.
   * `admins` is the `ADMINS` value fixed when the server was built.
   */
  method IsValid(admins: string, provider: Provider, token: string) returns (r: Handled<Option<string>>)
    ensures r == Admission(admins, provider, token)
  {
    var audiences: seq<string> := [];
    audiences := audiences + [ClientId];
    var idInfo := provider.inspect(token);
    if idInfo.None? {
      return Panicked;
    }
    var buffer := new char[|admins|](i requires 0 <= i < |admins| => admins[i]);
    assert buffer[..] == admins;
    var len := RetainInPlace(buffer);
    var list := buffer[..len];
    assert audiences == [ClientId];
    assert list == Normalize(admins);
    if provider.verify(idInfo.value, audiences) && idInfo.value.sub in Split(list, ',') {
      r := Responded(Some(idInfo.value.sub));
    } else {
      r := Responded(None);
    }
  }

  /** A token whose subject verifies and is listed yields that subject; any other inspectable token yields None. */
  lemma AdmissionGrants(admins: string, provider: Provider, token: string)
    requires provider.inspect(token).Some?
    ensures var info := provider.inspect(token).value;
      provider.verify(info, [ClientId]) && Lists(admins, info.sub) ==> Admission(admins, provider, token) == Responded(Some(info.sub))
    ensures var info := provider.inspect(token).value;
      !(provider.verify(info, [ClientId]) && Lists(admins, info.sub)) ==> Admission(admins, provider, token) == Responded(None)
  {
  }

  /** On admission the verified subject comes back unchanged, and it is a digits-only segment of the list. */
  lemma AdmittedSubject(admins: string, provider: Provider, token: string, sub: string)
    requires Admission(admins, provider, token) == Responded(Some(sub))
    ensures provider.inspect(token).Some? && provider.inspect(token).value.sub == sub
    ensures provider.verify(provider.inspect(token).value, [ClientId])
    ensures sub in Split(Normalize(admins), ',')
    ensures forall i :: 0 <= i < |sub| ==> '0' <= sub[i] <= '9'
  {
    ListedSubjectIsDigits(admins, sub);
  }

  /** A subject with any character other than a digit is never admitted, whatever the provider says. */
  lemma NonDigitSubjectRefused(admins: string, provider: Provider, token: string, i: nat)
    requires provider.inspect(token).Some?
    requires i < |provider.inspect(token).value.sub|
    requires !('0' <= provider.inspect(token).value.sub[i] <= '9')
    ensures Admission(admins, provider, token) == Responded(None)
  {
    var sub := provider.inspect(token).value.sub;
    if Lists(admins, sub) {
      ListedSubjectIsDigits(admins, sub);
    }
  }

  datatype IdTokenError = Missing | Invalid

  /** The admin principal: the subject of an admitted token. */
  datatype Admin = Admin(sub: string)

  /** `Admin::from_request`. */
  function AdminFromRequest(headers: seq<Header>, admins: string, provider: Provider): (r: Handled<GuardOutcome<Admin, IdTokenError>>)
    ensures r.Responded? && r.value.Failure? ==> r.value.status == BadRequest
    ensures r.Responded? && r.value.Success? ==>
      && Lists(admins, r.value.value.sub)
      && forall i :: 0 <= i < |r.value.value.sub| ==> '0' <= r.value.value.sub[i] <= '9'
  {
    match GetOne(headers, IdTokenHeader)
    case None => Responded(Failure(BadRequest, Missing))
    case Some(token) =>
      match Admission(admins, provider, token)
      case Panicked => Panicked
      case Responded(Some(sub)) => Responded(Success(Admin(sub)))
      case Responded(None) => Responded(Failure(BadRequest, Invalid))
  }

  /**
   * The three outcomes of the admin guard: Missing exactly when no `idToken` header is
   * present; otherwise Success(Admin(sub)) exactly when `is_valid` returns Some(sub),
   * Invalid exactly when it returns None, and a panic when it panics.
   */
  lemma AdminGuardOutcomes(headers: seq<Header>, admins: string, provider: Provider)
    ensures var r := AdminFromRequest(headers, admins, provider);
      && (r == Responded(Failure(BadRequest, Missing)) <==> forall h :: h in headers ==> !SameName(h.name, IdTokenHeader))
      && (forall sub :: r == Responded(Success(Admin(sub))) <==>
            GetOne(headers, IdTokenHeader).Some? && Admission(admins, provider, GetOne(headers, IdTokenHeader).value) == Responded(Some(sub)))
      && (r == Responded(Failure(BadRequest, Invalid)) <==>
            GetOne(headers, IdTokenHeader).Some? && Admission(admins, provider, GetOne(headers, IdTokenHeader).value) == Responded(None))
      && (r == Panicked <==>
            GetOne(headers, IdTokenHeader).Some? && Admission(admins, provider, GetOne(headers, IdTokenHeader).value) == Panicked)
  {
  }

  /** A granted admin principal always names a digits-only subject held by the allow-list. */
  lemma AdminIsListed(headers: seq<Header>, admins: string, provider: Provider, sub: string)
    requires AdminFromRequest(headers, admins, provider) == Responded(Success(Admin(sub)))
    ensures Lists(admins, sub)
    ensures forall i :: 0 <= i < |sub| ==> '0' <= sub[i] <= '9'
  {
    AdmittedSubject(admins, provider, GetOne(headers, IdTokenHeader).value, sub);
  }

  datatype FileName = FileName(name: string)

  datatype FileNameError = MissingName

  /** `FileName::from_request`: the `File-Name` header verbatim, or MissingName when there is none. */
  function FileNameFromRequest(headers: seq<Header>): (r: GuardOutcome<FileName, FileNameError>)
    ensures r.Failure? <==> forall h :: h in headers ==> !SameName(h.name, FileNameHeader)
    ensures r.Failure? ==> r == Failure(BadRequest, MissingName)
    ensures r.Success? ==> GetOne(headers, FileNameHeader) == Some(r.value.name)
  {
    match GetOne(headers, FileNameHeader)
    case Some(name) => Success(FileName(name))
    case None => Failure(BadRequest, MissingName)
  }
}
