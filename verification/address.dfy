/**
 * The two e-mail address patterns of the system, as predicates over strings.
 * The loose one, `/^[^\s@]+@[^\s@]+\.[^\s@]+$/`, is used by the server
 * controller and by the composer; the strict one,
 * `/^[a-zA-Z0-9._-]+@[a-zA-Z0-9.-]+\.[a-zA-Z]{2,4}$/`, by the dashboard.
 */
module Address {
  import opened Text

  /** A character of the class `[^\s@]`. */
  predicate IsAddressChar(c: char) {
    !IsSpace(c) && c != '@'
  }

  predicate AddressChars(s: string) {
    forall i | 0 <= i < |s| :: IsAddressChar(s[i])
  }

  /** `[^\s@]+\.[^\s@]+`: no whitespace and no `@`, with a dot that is neither
      the first nor the last character. */
  predicate IsLooseDomain(d: string) {
    AddressChars(d) && exists k | 0 < k < |d| - 1 :: d[k] == '.'
  }

  /** `s` matches the loose pattern with its `@` at index `i`. */
  predicate LooseAt(s: string, i: int) {
    0 < i < |s| && s[i] == '@' && AddressChars(s[..i]) && IsLooseDomain(s[i + 1..])
  }

  /** The loose pattern: a non-empty local part, `@`, and a loose domain. */
  predicate IsLooseAddress(s: string) {
    exists i | 0 < i < |s| :: LooseAt(s, i)
  }

  /** Every loose address splits at its `@` into a non-empty local part and a
      domain of the required shape. */
  lemma LooseParts(s: string) returns (local: string, domain: string)
    requires IsLooseAddress(s)
    ensures s == local + ['@'] + domain
    ensures local != "" && AddressChars(local) && IsLooseDomain(domain)
  {
    var i :| 0 < i < |s| && LooseAt(s, i);
    local, domain := s[..i], s[i + 1..];
    assert s == s[..i] + [s[i]] + s[i + 1..];
  }

  /** Conversely, any such local part and domain make a loose address. */
  lemma LooseFromParts(local: string, domain: string)
    requires local != "" && AddressChars(local) && IsLooseDomain(domain)
    ensures IsLooseAddress(local + ['@'] + domain)
  {
    var s := local + ['@'] + domain;
    var i := |local|;
    assert s[..i] == local && s[i] == '@' && s[i + 1..] == domain;
    assert LooseAt(s, i);
  }

  /** A loose address holds no whitespace and exactly one `@`, so trimming
      leaves it alone. */
  lemma LooseShape(s: string)
    requires IsLooseAddress(s)
    ensures forall j | 0 <= j < |s| :: !IsSpace(s[j])
    ensures exists i | 0 <= i < |s| :: s[i] == '@' && forall j | 0 <= j < |s| && j != i :: s[j] != '@'
    ensures Trim(s) == s
  {
    var local, domain := LooseParts(s);
    var i := |local|;
    CharsAroundAt(local, domain);
    assert s[i] == '@';
    assert forall j | 0 <= j < |s| :: !IsSpace(s[j]);
    assert forall j | 0 <= j < |s| && j != i :: s[j] != '@';
    TrimmedIsFixed(s);
  }

  /** Around the at sign of `local@domain` every character is an address
      character. */
  lemma CharsAroundAt(local: string, domain: string)
    requires AddressChars(local) && AddressChars(domain)
    ensures forall j | 0 <= j < |local + ['@'] + domain| && j != |local| :: IsAddressChar((local + ['@'] + domain)[j])
  {
    var s := local + ['@'] + domain;
    forall j | 0 <= j < |s| && j != |local| ensures IsAddressChar(s[j]) {
      if j < |local| {
        assert s[j] == local[j];
      } else {
        assert s[j] == domain[j - |local| - 1];
      }
    }
  }

  predicate IsAsciiLetter(c: char) {
    'a' <= c <= 'z' || 'A' <= c <= 'Z'
  }

  /** A character of `[a-zA-Z0-9._-]`. */
  predicate IsLocalChar(c: char) {
    IsAsciiLetter(c) || IsDigit(c) || c == '.' || c == '_' || c == '-'
  }

  /** A character of `[a-zA-Z0-9.-]`. */
  predicate IsDomainChar(c: char) {
    IsAsciiLetter(c) || IsDigit(c) || c == '.' || c == '-'
  }

  predicate LocalChars(s: string) {
    forall j | 0 <= j < |s| :: IsLocalChar(s[j])
  }

  predicate DomainChars(s: string) {
    forall j | 0 <= j < |s| :: IsDomainChar(s[j])
  }

  /** `[a-zA-Z]{2,4}` */
  predicate IsTopLevelDomain(t: string) {
    2 <= |t| <= 4 && forall j | 0 <= j < |t| :: IsAsciiLetter(t[j])
  }

  /** The dot at index `k` splits `d` into a non-empty domain name and a
      top-level domain of two to four letters. */
  predicate StrictDomainAt(d: string, k: int) {
    0 < k < |d| && d[k] == '.' && DomainChars(d[..k]) && IsTopLevelDomain(d[k + 1..])
  }

  /** `[a-zA-Z0-9.-]+\.[a-zA-Z]{2,4}` */
  predicate IsStrictDomain(d: string) {
    exists k | 0 < k < |d| :: StrictDomainAt(d, k)
  }

  /** `s` matches the strict pattern with its `@` at index `i`. */
  predicate StrictAt(s: string, i: int) {
    0 < i < |s| && s[i] == '@' && LocalChars(s[..i]) && IsStrictDomain(s[i + 1..])
  }

  /** The strict pattern of the dashboard. */
  predicate IsStrictAddress(s: string) {
    exists i | 0 < i < |s| :: StrictAt(s, i)
  }

  lemma LocalCharsAreAddressChars(s: string)
    requires LocalChars(s)
    ensures AddressChars(s)
  {
    forall j | 0 <= j < |s| ensures IsAddressChar(s[j]) {
      assert IsLocalChar(s[j]);
    }
  }

  lemma DomainCharsAreAddressChars(s: string)
    requires DomainChars(s)
    ensures AddressChars(s)
  {
    forall j | 0 <= j < |s| ensures IsAddressChar(s[j]) {
      assert IsDomainChar(s[j]);
    }
  }

  lemma TopLevelDomainIsAddressChars(t: string)
    requires IsTopLevelDomain(t)
    ensures AddressChars(t)
  {
    forall j | 0 <= j < |t| ensures IsAddressChar(t[j]) {
      assert IsAsciiLetter(t[j]);
    }
  }

  lemma AddressCharsAround(a: string, b: string)
    requires AddressChars(a) && AddressChars(b)
    ensures AddressChars(a + ['.'] + b)
  {
    var s := a + ['.'] + b;
    forall j | 0 <= j < |s| ensures IsAddressChar(s[j]) {
      if j < |a| {
        assert s[j] == a[j];
      } else if j > |a| {
        assert s[j] == b[j - |a| - 1];
      }
    }
  }

  /** A string is the text before index `i`, the character there, and the
      text after it. */
  lemma SplitAround(s: string, i: nat)
    requires i < |s|
    ensures s == s[..i] + [s[i]] + s[i + 1..]
  {
  }

  /** Every address the dashboard accepts, the server's pattern accepts too. */
  lemma StrictIsLoose(s: string)
    requires IsStrictAddress(s)
    ensures IsLooseAddress(s)
  {
    var i :| 0 < i < |s| && StrictAt(s, i);
    var local, d := s[..i], s[i + 1..];
    var k :| 0 < k < |d| && StrictDomainAt(d, k);
    var name, tld := d[..k], d[k + 1..];
    assert d == name + [d[k]] + tld by {
      SplitAround(d, k);
    }
    assert s == local + [s[i]] + d by {
      SplitAround(s, i);
    }
    LocalCharsAreAddressChars(local);
    DomainCharsAreAddressChars(name);
    TopLevelDomainIsAddressChars(tld);
    AddressCharsAround(name, tld);
    assert IsLooseDomain(d);
    LooseFromParts(local, d);
  }

  lemma LocalCharAt(s: string, i: nat, j: nat)
    requires j < i <= |s| && LocalChars(s[..i])
    ensures IsLocalChar(s[j])
  {
    assert s[..i][j] == s[j];
  }

  /** The converse fails: a plus-addressed mailbox passes the server's
      pattern and not the dashboard's. */
  lemma PlusAddressOnlyLoose()
    ensures IsLooseAddress("a+b@c.de") && !IsStrictAddress("a+b@c.de")
  {
    MiddleCharIsLoose('+');
    assert "a+b@c.de" == ['a', '+', 'b'] + "@c.de";
    PlusAddressNotStrict();
  }

  /** A three-character local part with any allowed middle character, at the
      domain `c.de`, passes the loose pattern. */
  lemma MiddleCharIsLoose(c: char)
    requires IsAddressChar(c)
    ensures IsLooseAddress(['a', c, 'b'] + "@c.de")
  {
    var local := ['a', c, 'b'];
    assert AddressChars(local) by {
      forall j | 0 <= j < |local| ensures IsAddressChar(local[j]) {
        if j == 0 {} else if j == 1 {} else {}
      }
    }
    assert IsLooseDomain("c.de") by {
      var t := "c.de";
      forall j | 0 <= j < |t| ensures IsAddressChar(t[j]) {
        if j == 0 {} else if j == 1 {} else if j == 2 {} else {}
      }
      assert t[1] == '.';
    }
    LooseFromParts(local, "c.de");
    assert local + "@c.de" == local + ['@'] + "c.de";
  }

  lemma PlusAddressNotStrict()
    ensures !IsStrictAddress("a+b@c.de")
  {
    var s := "a+b@c.de";
    assert s[1] == '+';
    PlusBlocksStrict(s);
  }

  /** A `+` in second place is in the local part, which the strict pattern
      forbids, or takes the place of the `@`. */
  lemma PlusBlocksStrict(s: string)
    requires |s| > 1 && s[1] == '+'
    ensures !IsStrictAddress(s)
  {
    forall i | 0 < i < |s| ensures !StrictAt(s, i) {
      if i > 1 && StrictAt(s, i) {
        LocalCharAt(s, i, 1);
      }
    }
  }

  lemma LocalNoComma(t: string)
    requires LocalChars(t)
    ensures forall j | 0 <= j < |t| :: t[j] != ','
  {
    forall j | 0 <= j < |t| ensures t[j] != ',' {
      assert IsLocalChar(t[j]);
    }
  }

  lemma StrictDomainNoComma(d: string)
    requires IsStrictDomain(d)
    ensures forall m | 0 <= m < |d| :: d[m] != ','
  {
    var k :| 0 < k < |d| && StrictDomainAt(d, k);
    var name, tld := d[..k], d[k + 1..];
    forall m | 0 <= m < |d| ensures d[m] != ',' {
      if m < k {
        assert d[m] == name[m] && IsDomainChar(name[m]);
      } else if m > k {
        assert d[m] == tld[m - k - 1] && IsAsciiLetter(tld[m - k - 1]);
      }
    }
  }

  lemma StrictNoComma(s: string)
    requires IsStrictAddress(s)
    ensures forall j | 0 <= j < |s| :: s[j] != ','
  {
    var i :| 0 < i < |s| && StrictAt(s, i);
    var local, d := s[..i], s[i + 1..];
    LocalNoComma(local);
    StrictDomainNoComma(d);
    forall j | 0 <= j < |s| ensures s[j] != ',' {
      if j < i {
        assert s[j] == local[j];
      } else if j > i {
        assert s[j] == d[j - i - 1];
      }
    }
  }

  /** A strict address has no comma, no whitespace and no padding, so a
      comma-separated list can hold it as one entry. */
  lemma StrictShape(s: string)
    requires IsStrictAddress(s)
    ensures s != [] && Trimmed(s)
    ensures forall j | 0 <= j < |s| :: s[j] != ','
  {
    StrictIsLoose(s);
    LooseShape(s);
    StrictNoComma(s);
  }
}
