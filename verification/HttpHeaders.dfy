/**
 Requests with headers as Go keeps them: a header name is stored and looked up in canonical form, the
 first letter and every letter after a hyphen in upper case and the rest in lower case. A name with a
 character that no header name may have is kept as it is.
 */
module HttpHeaders {

  const DEFAULT_IDEMPOTENCY_HEADER := "Idempotency-Key"
  const CONTENT_TYPE := "Content-Type"

  predicate IsUpper(c: char) {
    'A' <= c <= 'Z'
  }

  predicate IsLower(c: char) {
    'a' <= c <= 'z'
  }

  function ToLower(c: char): (r: char)
    ensures !IsUpper(r)
  {
    if IsUpper(c) then c - 'A' + 'a' else c
  }

  function ToUpper(c: char): (r: char)
    ensures !IsLower(r) && ToLower(r) == ToLower(c)
  {
    if IsLower(c) then c - 'a' + 'A' else c
  }

  /** A character that a header name may have. */
  predicate IsTokenChar(c: char) {
    IsUpper(c) || IsLower(c) || '0' <= c <= '9' || c in "!#$%&'*+-.^_`|~"
  }

  predicate IsToken(name: string) {
    forall c :: c in name ==> IsTokenChar(c)
  }

  function Capitalized(name: string, upper: bool): (r: string)
    ensures |r| == |name|
  {
    if name == [] then []
    else [if upper then ToUpper(name[0]) else ToLower(name[0])] + Capitalized(name[1..], name[0] == '-')
  }

  function CanonicalKey(name: string): string {
    if IsToken(name) then Capitalized(name, true) else name
  }

  ghost predicate SameButForCase(a: string, b: string) {
    |a| == |b| && forall i :: 0 <= i < |a| ==> ToLower(a[i]) == ToLower(b[i])
  }

  lemma {:induction false} CapitalizedIgnoresCase(a: string, b: string, upper: bool)
    requires SameButForCase(a, b)
    ensures Capitalized(a, upper) == Capitalized(b, upper) && SameButForCase(a, Capitalized(a, upper))
  {
    if a != [] {
      assert ToLower(a[0]) == ToLower(b[0]);
      assert forall i :: 0 <= i < |a| - 1 ==> a[1..][i] == a[i + 1] && b[1..][i] == b[i + 1];
      CapitalizedIgnoresCase(a[1..], b[1..], a[0] == '-');
    }
  }

  lemma TokenIgnoresCase(a: string, b: string)
    requires SameButForCase(a, b) && IsToken(a)
    ensures IsToken(b)
  {
    forall c | c in b
      ensures IsTokenChar(c)
    {
      var i :| 0 <= i < |b| && b[i] == c;
      assert ToLower(a[i]) == ToLower(b[i]) && a[i] in a;
    }
  }

  lemma {:induction false} CapitalizedAt(name: string, upper: bool, i: nat)
    requires i < |name|
    ensures Capitalized(name, upper)[i]
            == if (if i == 0 then upper else name[i - 1] == '-') then ToUpper(name[i]) else ToLower(name[i])
  {
    if i > 0 {
      CapitalizedAt(name[1..], name[0] == '-', i - 1);
    }
  }

  /** Every character of the canonical form. */
  lemma CanonicalKeyAt(name: string, i: nat)
    requires IsToken(name) && i < |name|
    ensures |CanonicalKey(name)| == |name|
    ensures var c := name[i];
            CanonicalKey(name)[i]
            == if i == 0 || name[i - 1] == '-'
               then (if 'a' <= c <= 'z' then c - 'a' + 'A' else c)
               else (if 'A' <= c <= 'Z' then c - 'A' + 'a' else c)
  {
    CapitalizedAt(name, true, i);
  }

  predicate StartsWord(name: string, i: nat)
    requires i < |name|
  {
    i == 0 || name[i - 1] == '-'
  }

  /** A name in canonical form is kept as it is written. */
  lemma CanonicalNamesAreKept(name: string)
    requires forall i :: 0 <= i < |name| ==> if StartsWord(name, i) then !IsLower(name[i]) else !IsUpper(name[i])
    ensures CanonicalKey(name) == name
  {
    if IsToken(name) {
      forall i | 0 <= i < |name|
        ensures CanonicalKey(name)[i] == name[i]
      {
        CanonicalKeyAt(name, i);
        assert StartsWord(name, i) <==> i == 0 || name[i - 1] == '-';
      }
    }
  }

  lemma DefaultHeaderIsCanonical()
    ensures CanonicalKey(DEFAULT_IDEMPOTENCY_HEADER) == "Idempotency-Key"
  {
    CanonicalNamesAreKept(DEFAULT_IDEMPOTENCY_HEADER);
  }

  /** Header names that differ in case only are one header. */
  lemma CaseDoesNotMatter(a: string, b: string)
    requires IsToken(a) && SameButForCase(a, b)
    ensures CanonicalKey(a) == CanonicalKey(b)
  {
    TokenIgnoresCase(a, b);
    CapitalizedIgnoresCase(a, b, true);
  }

  /** Canonical names are their own canonical form. */
  lemma CanonicalKeyIsCanonical(name: string)
    ensures CanonicalKey(CanonicalKey(name)) == CanonicalKey(name)
  {
    if IsToken(name) {
      CapitalizedIgnoresCase(name, name, true);
      CaseDoesNotMatter(name, CanonicalKey(name));
    }
  }

  /** Two different headers cannot be taken for one another. */
  lemma OnlyCaseIsLost(a: string, b: string)
    requires CanonicalKey(a) == CanonicalKey(b)
    ensures SameButForCase(a, b)
  {
    CapitalizedIgnoresCase(a, a, true);
    CapitalizedIgnoresCase(b, b, true);
  }

  /** A request, with at most one value a header; the empty value is no value. */
  class HttpRequest {
    var header: map<string, string>

    constructor ()
      ensures header == map[]
    {
      header := map[];
    }

    function Get(name: string): string
      reads this
    {
      if CanonicalKey(name) in header then header[CanonicalKey(name)] else ""
    }

    method Set(name: string, value: string)
      modifies this
      ensures header == old(header)[CanonicalKey(name) := value]
      ensures Get(name) == value
    {
      header := header[CanonicalKey(name) := value];
    }
  }
}
