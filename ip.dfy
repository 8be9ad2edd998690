/** What `validate_ip` accepts, backend.py:13-24 and its copy main.py:68-79: a dotted quad of
    decimal numbers, each at most 255, with leading zeros allowed. */
module IpAddress {
  import opened Text

  /** One part that passes the loop body: all digits (so non-empty) and `int(p) <= 255`. */
  predicate IsOctet(p: string) {
    IsDigits(p) && DigitsValue(p) <= 255
  }

  /** The reference meaning: four octets joined by dots. */
  ghost predicate IsDottedQuad(s: string) {
    exists a, b, c, d :: IsOctet(a) && IsOctet(b) && IsOctet(c) && IsOctet(d)
      && s == a + "." + b + "." + c + "." + d
  }

  /** The check as `validate_ip` in backend.py and main.py writes it: `s.split(".")` has exactly four parts and each is an octet. */
  predicate SplitsIntoOctets(s: string) {
    var parts := Split(s, '.');
    |parts| == 4 && forall i :: 0 <= i < 4 ==> IsOctet(parts[i])
  }

  lemma OctetHasNoDot(p: string)
    requires IsOctet(p)
    ensures '.' !in p
  {
  }

  lemma JoinFour(a: string, b: string, c: string, d: string)
    ensures Join([a, b, c, d], '.') == a + "." + b + "." + c + "." + d
  {
    assert [a, b, c, d][1..] == [b, c, d];
    assert [b, c, d][1..] == [c, d];
    assert [c, d][1..] == [d];
    assert Join([c, d], '.') == c + "." + d;
    assert Join([b, c, d], '.') == b + "." + c + "." + d;
  }

  /** `validate_ip`'s split-and-check reading decides exactly the dotted quads. */
  lemma DottedQuadIffOctets(s: string)
    ensures IsDottedQuad(s) <==> SplitsIntoOctets(s)
  {
    if IsDottedQuad(s) {
      var a, b, c, d :| IsOctet(a) && IsOctet(b) && IsOctet(c) && IsOctet(d)
        && s == a + "." + b + "." + c + "." + d;
      OctetHasNoDot(a);
      OctetHasNoDot(b);
      OctetHasNoDot(c);
      OctetHasNoDot(d);
      JoinFour(a, b, c, d);
      SplitJoin([a, b, c, d], '.');
    }
    if SplitsIntoOctets(s) {
      var parts := Split(s, '.');
      JoinSplit(s, '.');
      JoinFour(parts[0], parts[1], parts[2], parts[3]);
      assert parts == [parts[0], parts[1], parts[2], parts[3]];
      assert IsOctet(parts[0]) && IsOctet(parts[1]) && IsOctet(parts[2]) && IsOctet(parts[3]);
    }
  }

  /** A '0' in front of an octet leaves an octet: the digit check still passes and `int()` gives
      the same value. */
  lemma OctetLeadingZero(p: string)
    requires IsOctet(p)
    ensures IsOctet("0" + p)
  {
    LeadingZeroNeutral(p);
  }

  /** Prefixing any one of the four parts of an accepted address with '0' keeps it accepted: the
      loop checks every part the same way, and leading zeros are allowed in each. */
  lemma LeadingZerosAccepted(parts: seq<string>, k: nat)
    requires |parts| == 4 && forall i :: 0 <= i < 4 ==> IsOctet(parts[i])
    requires k < 4
    ensures IsDottedQuad(Join(parts[k := "0" + parts[k]], '.'))
  {
    OctetLeadingZero(parts[k]);
    var q := parts[k := "0" + parts[k]];
    assert forall i :: 0 <= i < 4 ==> IsOctet(q[i]);
    assert q == [q[0], q[1], q[2], q[3]];
    JoinFour(q[0], q[1], q[2], q[3]);
    assert IsOctet(q[0]) && IsOctet(q[1]) && IsOctet(q[2]) && IsOctet(q[3]);
  }

  lemma AcceptsLeadingZeroAddress()
    ensures IsDottedQuad("010.0.0.1")
  {
    assert "10" == ['1'] + ['0'] && DigitsValue("10") == 10;
    var parts := ["10", "0", "0", "1"];
    assert forall i :: 0 <= i < 4 ==> IsOctet(parts[i]);
    LeadingZerosAccepted(parts, 0);
    assert "0" + parts[0] == "010";
    assert parts[0 := "0" + parts[0]] == ["010", "0", "0", "1"];
    JoinFour("010", "0", "0", "1");
  }

  lemma AcceptsTypicalAddress()
    ensures IsDottedQuad("10.0.0.5")
  {
    assert DigitsValue("10") == 10;
    assert IsOctet("10") && IsOctet("0") && IsOctet("5");
    assert "10" + "." + "0" + "." + "0" + "." + "5" == "10.0.0.5";
  }

  lemma RejectsEmptyPart()
    ensures !IsDottedQuad("1..2.3")
  {
    DottedQuadIffOctets("1..2.3");
    JoinFour("1", "", "2", "3");
    assert "1" + "." + "" + "." + "2" + "." + "3" == "1..2.3";
    SplitJoin(["1", "", "2", "3"], '.');
    assert !IsDigits("");
  }

  lemma ThreeHundredIsNotOctet()
    ensures !IsOctet("300")
  {
    assert "300"[..2] == "30" && "30"[..1] == "3" && "3"[..0] == "";
  }

  lemma SplitOutOfRangeSample()
    ensures Split("10.0.0.300", '.') == ["10", "0", "0", "300"]
  {
    JoinFour("10", "0", "0", "300");
    assert "10" + "." + "0" + "." + "0" + "." + "300" == "10.0.0.300";
    SplitJoin(["10", "0", "0", "300"], '.');
  }

  lemma RejectsOutOfRange()
    ensures !IsDottedQuad("10.0.0.300")
  {
    SplitOutOfRangeSample();
    ThreeHundredIsNotOctet();
    var parts := Split("10.0.0.300", '.');
    assert parts[3] == "300";
    assert !IsOctet(parts[3]);
    assert !SplitsIntoOctets("10.0.0.300");
    DottedQuadIffOctets("10.0.0.300");
  }

  lemma RejectsWrongPartCount()
    ensures !IsDottedQuad("1.2.3")
  {
    DottedQuadIffOctets("1.2.3");
    var parts := ["1", "2", "3"];
    assert parts[1..] == ["2", "3"] && parts[1..][1..] == ["3"];
    assert Join(parts, '.') == "1.2.3";
    SplitJoin(parts, '.');
  }
}
