/**
 * The rules both email validators are built from, stated on their own, and
 * the lemmas that tie the string calls the validators make to those rules.
 */
module Email {
  import opened Text
  import opened ErrorMessages

  /** The suffixes a domain may end with. */
  const AllowedDomains: seq<string> := [".com", ".net", ".org", ".co", ".pk"]

  /** The framework's email-syntax attribute, a library check left uninterpreted. */
  type SyntaxCheck = string -> bool

  /**
   * The one fact about the framework's syntax check that the model may rely on:
   * it accepts no string without an '@'.
   */
  ghost predicate SyntaxNeedsAt(syntax: SyntaxCheck) {
    forall e :: syntax(e) ==> '@' in e
  }

  /**
   * What a validator does with an address: accept it, reject it with a reason,
   * or raise an exception that escapes to its caller.
   */
  datatype EmailCheck = Accepted | Rejected(reason: ErrorCode) | Throws

  /** Rule: an ASCII letter or digit stands before the first '@' (or anywhere, when there is none). */
  predicate LocalPartHasAlphanumeric(email: string) {
    exists i :: 0 <= i < |email| && IsAsciiAlphanumeric(email[i]) && '@' !in email[..i]
  }

  /** `AllowedDomains.Any(d => s.EndsWith(d))`. */
  predicate EndsWithAllowedDomain(s: string) {
    exists i :: 0 <= i < |AllowedDomains| && EndsWith(s, AllowedDomains[i])
  }

  /** Rule: the address, lower-cased, ends with an allowed suffix. */
  predicate DomainAllowed(email: string) {
    EndsWithAllowedDomain(ToLower(email))
  }

  /** The local-part test the validators run on `Split('@')[0]` is the local-part rule. */
  lemma LocalPartCheck(email: string)
    ensures ContainsAsciiAlphanumeric(BeforeFirst(email, '@')) <==> LocalPartHasAlphanumeric(email)
  {
    var local := BeforeFirst(email, '@');
    if ContainsAsciiAlphanumeric(local) {
      var i :| 0 <= i < |local| && IsAsciiAlphanumeric(local[i]);
      assert email[..i] == local[..i];
      assert IsAsciiAlphanumeric(email[i]) && '@' !in email[..i];
    }
    if LocalPartHasAlphanumeric(email) {
      var i :| 0 <= i < |email| && IsAsciiAlphanumeric(email[i]) && '@' !in email[..i];
      assert i < |local|;
      assert local[i] == email[i];
    }
  }

  /** A suffix free of '@' that ends a text ending at or after an '@' lies after that '@'. */
  lemma SuffixAfterAt(lowered: string, at: nat, d: string)
    requires at < |lowered| && lowered[at] == '@' && '@' !in d
    ensures EndsWith(lowered[at..], d) <==> EndsWith(lowered, d)
  {
    if EndsWith(lowered, d) {
      assert lowered[at..][|lowered| - at - |d|..] == lowered[|lowered| - |d|..];
    }
    if EndsWith(lowered[at..], d) {
      assert lowered[at..][|lowered| - at - |d|..] == lowered[|lowered| - |d|..];
    }
  }

  /**
   * The domain test the validators run, on the lower-cased text from the last
   * '@', is the domain rule on the whole lower-cased address.
   */
  lemma DomainCheckAtLastAt(email: string)
    requires '@' in email
    ensures EndsWithAllowedDomain(ToLower(email[LastIndexOf(email, '@')..])) <==> DomainAllowed(email)
  {
    var at := LastIndexOf(email, '@');
    var lowered := ToLower(email);
    ToLowerSuffix(email, at);
    assert lowered[at] == '@';
    NoAtInDomains();
    forall i | 0 <= i < |AllowedDomains|
      ensures EndsWith(lowered[at..], AllowedDomains[i]) <==> EndsWith(lowered, AllowedDomains[i])
    {
      SuffixAfterAt(lowered, at, AllowedDomains[i]);
    }
  }

  /** No allowed suffix contains an '@'. */
  lemma NoAtInDomains()
    ensures forall i :: 0 <= i < |AllowedDomains| ==> '@' !in AllowedDomains[i]
  {
  }

  /** The domain rule looks at letters regardless of case. */
  lemma DomainAllowedIgnoresCase(a: string, b: string)
    requires EqualsIgnoreCase(a, b)
    ensures DomainAllowed(a) <==> DomainAllowed(b)
  {
  }

  /** The domain error's text lists exactly the allowed suffixes, in order, comma-separated. */
  lemma DomainMessageListsAllowedDomains()
    ensures Message(InvalidEmailDomain) == "Email domain must be one of the following: " + Join(AllowedDomains, ", ")
  {
  }
}
