/** A `Set-Cookie` line as both of the proxy's cookies are serialised. */
module CookieLines {
  import opened Outcomes
  import opened Text
  import opened SignedInHint

  function Attributes(maxAge: nat, httpOnly: bool, production: bool): seq<string> {
    ["Path=/", "Max-Age=" + Decimal(maxAge)]
    + (if httpOnly then ["HttpOnly"] else []) + ["SameSite=Lax"] + (if production then ["Secure"] else [])
  }

  function Serialise(name: string, value: string, maxAge: nat, httpOnly: bool, production: bool): string {
    Join([name + "=" + value] + Attributes(maxAge, httpOnly, production), "; ")
  }

  // ---------- what a browser reads ----------

  lemma AttributesAreTrimmed(maxAge: nat, httpOnly: bool, production: bool)
    ensures forall a :: a in Attributes(maxAge, httpOnly, production) ==> ';' !in a && IsTrimmed(a)
  {
    hide Decimal, IsTrimmed, IsSpace;
    AgeAttribute(maxAge);
    FixedAttributes();
  }

  lemma FixedAttributes()
    ensures forall a :: a in {"Path=/", "HttpOnly", "SameSite=Lax", "Secure"} ==>
              ';' !in a && IsTrimmed(a) && a != "Max-Age=0"
  {
  }

  lemma AgeAttribute(maxAge: nat)
    ensures var age := "Max-Age=" + Decimal(maxAge);
            ';' !in age && IsTrimmed(age) && (age == "Max-Age=0" <==> maxAge == 0)
  {
    hide Decimal, DigitChar;
    var digits := Decimal(maxAge);
    var age := "Max-Age=" + digits;
    assert IsDigit(age[|age| - 1]);
    assert forall c :: c in digits ==> IsDigit(c);
    assert digits == age[8..];
    DecimalIsZero(maxAge);
  }

  lemma DecimalIsZero(n: nat)
    ensures Decimal(n) == "0" <==> n == 0
  {
    if 0 < n < 10 {
      assert Decimal(n)[0] == DigitChar(n);
    } else if n >= 10 {
      assert |Decimal(n)| > 1;
    }
  }

  /** An attribute of a line: one of its parts after the first, white space aside. */
  predicate HasAttribute(line: string, attribute: string) {
    exists i :: 0 < i < |Split(line, ';')| && Trim(Split(line, ';')[i]) == attribute
  }

  lemma LineParts(name: string, value: string, maxAge: nat, httpOnly: bool, production: bool)
    requires ';' !in name && ';' !in value
    ensures var attributes := Attributes(maxAge, httpOnly, production);
            var parts := Split(Serialise(name, value, maxAge, httpOnly, production), ';');
            && |parts| == 1 + |attributes| && parts[0] == name + "=" + value
            && forall i :: 0 < i < |parts| ==> Trim(parts[i]) == attributes[i - 1]
  {
    hide Split, Join, Decimal, Trim, Attributes, IsTrimmed, Spaced;
    var attributes := Attributes(maxAge, httpOnly, production);
    var all := [name + "=" + value] + attributes;
    AttributesAreTrimmed(maxAge, httpOnly, production);
    forall i | 0 <= i < |all| ensures ';' !in all[i] {
      if i > 0 {
        assert all[i] == attributes[i - 1];
      }
    }
    SplitOfSpacedJoin(all, ';');
    assert all[1..] == attributes;
    forall i | 0 < i < 1 + |attributes| ensures Trim(([all[0]] + Spaced(attributes))[i]) == attributes[i - 1] {
      FieldOfSpaced(attributes[i - 1]);
      TrimTrims(attributes[i - 1]);
    }
  }

  /** What a line carries beside its pair: these attributes and no other. */
  lemma AttributesExact(name: string, value: string, maxAge: nat, httpOnly: bool, production: bool)
    requires ';' !in name && ';' !in value
    ensures forall a :: HasAttribute(Serialise(name, value, maxAge, httpOnly, production), a) <==>
              || a == "Path=/" || a == "SameSite=Lax" || a == "Max-Age=" + Decimal(maxAge)
              || (a == "HttpOnly" && httpOnly) || (a == "Secure" && production)
  {
    hide Split, Trim, Decimal, Serialise;
    var attributes := Attributes(maxAge, httpOnly, production);
    var line := Serialise(name, value, maxAge, httpOnly, production);
    LineParts(name, value, maxAge, httpOnly, production);
    forall a ensures HasAttribute(line, a) <==> a in attributes {
      if a in attributes {
        var j :| 0 <= j < |attributes| && attributes[j] == a;
        assert Trim(Split(line, ';')[j + 1]) == a;
      }
    }
  }

  /** How a browser reads a line it is sent: name and value back, and whether the cookie is removed. */
  lemma SerialisedReads(name: string, value: string, maxAge: nat, httpOnly: bool, production: bool)
    requires ';' !in name && '=' !in name && ';' !in value
    ensures var line := Serialise(name, value, maxAge, httpOnly, production);
            && FieldOf(Split(line, ';')[0]) == Field(Trim(name), Some(Trim(value)))
            && (HasAttribute(line, "Max-Age=0") <==> maxAge == 0)
  {
    hide Split, Decimal, Trim, FieldOf, Attributes, Serialise, HasAttribute;
    LineParts(name, value, maxAge, httpOnly, production);
    AttributesExact(name, value, maxAge, httpOnly, production);
    FieldOfPair(name, value);
    AgeAttribute(maxAge);
    FixedAttributes();
  }
}
