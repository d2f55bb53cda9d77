/**
 * Account-code normalisation (`norm_konto`): the canonical form of a ledger account number,
 * used both as the key of the account directory and to look up each journal row's account.
 */
module Konto {
  import opened Wrappers
  import opened Text

  /** The separators removed from an account code, in the order the code removes them. */
  const Separators: seq<char> := ['.', '-', '/', '\\']

  /** True when `s` holds none of the characters a normalised code never contains. */
  predicate IsCode(s: string) {
    ' ' !in s && forall c :: c in Separators ==> c !in s
  }

  /** Removes every occurrence of each character of `cs`, one character after another. */
  function RemoveEach(s: string, cs: seq<char>): (r: string)
    ensures forall x :: x in r <==> x in s && x !in cs
    ensures (forall c :: c in cs ==> c !in s) ==> r == s
    decreases |cs|
  {
    if cs == [] then s else RemoveEach(RemoveChar(s, cs[0]), cs[1..])
  }

  /** The trailing ".0" left by a number-to-text conversion, dropped before anything else. */
  function DropPointZero(s: string): (r: string)
    ensures EndsWith(s, ".0") ==> r + ".0" == s
    ensures !EndsWith(s, ".0") ==> r == s
  {
    if EndsWith(s, ".0") then s[..|s| - 2] else s
  }

  /** The normalised account code: `None` gives "", otherwise drop ".0", strip, drop spaces and separators. */
  function NormalizedKonto(x: Option<string>): (r: string)
    ensures IsCode(r)
    ensures x == None ==> r == ""
    ensures x.Some? ==> forall c :: c in r ==> c in x.value
  {
    match x
    case None => ""
    case Some(s) => Unseparated(Strip(DropPointZero(s)))
  }

  /** The stripped text with its spaces and then its separators removed. */
  function Unseparated(t: string): (r: string)
    ensures IsCode(r)
    ensures forall c :: c in r ==> c in t
    ensures IsCode(t) ==> r == t
  {
    RemoveEach(RemoveChar(t, ' '), Separators)
  }

  /** `norm_konto`: the separators are removed by a loop over the separator list, as the code does. */
  method NormKonto(x: Option<string>) returns (r: string)
    ensures r == NormalizedKonto(x)
    ensures IsCode(r)
  {
    if x == None {
      return "";
    }
    var s := x.value;
    if EndsWith(s, ".0") {
      s := s[..|s| - 2];
    }
    assert s == DropPointZero(x.value);
    s := RemoveChar(Strip(s), ' ');
    r := RemoveSeparators(s);
  }

  /** The loop of `norm_konto` over the separators, each removed in turn. */
  method RemoveSeparators(t: string) returns (s: string)
    ensures s == RemoveEach(t, Separators)
  {
    s := t;
    var i := 0;
    while i < |Separators|
      invariant 0 <= i <= |Separators|
      invariant RemoveEach(s, Separators[i..]) == RemoveEach(t, Separators)
    {
      RemoveEachStep(s, Separators[i..]);
      assert Separators[i..][1..] == Separators[i + 1..];
      s := RemoveChar(s, Separators[i]);
      i := i + 1;
    }
  }

  /** Removing a list of characters removes its first one, then the rest. */
  lemma RemoveEachStep(s: string, cs: seq<char>)
    requires cs != []
    ensures RemoveEach(s, cs) == RemoveEach(RemoveChar(s, cs[0]), cs[1..])
  {
  }

  /** A second pass over a normalised code only strips it: nothing else is left to remove. */
  lemma SecondPassStrips(x: Option<string>)
    ensures NormalizedKonto(Some(NormalizedKonto(x))) == Strip(NormalizedKonto(x))
  {
    CodeSecondPass(NormalizedKonto(x));
  }

  /** Normalising a code again only strips it. */
  lemma CodeSecondPass(r: string)
    requires IsCode(r)
    ensures NormalizedKonto(Some(r)) == Strip(r)
  {
    NoPointZero(r);
    StripKeepsCode(r);
  }

  /** Text without '.' has no ".0" ending to drop. */
  lemma NoPointZero(r: string)
    requires '.' !in r
    ensures DropPointZero(r) == r
  {
    if |r| >= 2 {
      assert r[|r| - 2] in r;
      assert r[|r| - 2..][0] == r[|r| - 2];
    }
  }

  /** Stripping a code leaves a code. */
  lemma StripKeepsCode(r: string)
    requires IsCode(r)
    ensures IsCode(Strip(r))
  {
    var t := Strip(r);
    assert forall c :: c in t ==> c in r;
  }

  /** When the only whitespace in the input is the plain space, normalisation is idempotent. */
  lemma IdempotentWithPlainSpaces(s: string)
    requires forall i :: 0 <= i < |s| ==> IsSpace(s[i]) ==> s[i] == ' '
    ensures NormalizedKonto(Some(NormalizedKonto(Some(s)))) == NormalizedKonto(Some(s))
  {
    var r := NormalizedKonto(Some(s));
    SecondPassStrips(Some(s));
    assert NoSpace(r) by {
      forall i | 0 <= i < |r| ensures !IsSpace(r[i]) {
        assert r[i] in r;
        assert r[i] in s;
        assert r[i] != ' ';
      }
    }
  }

  /** A code with no ".0" ending, no space and no whitespace at its edges only loses its separators. */
  lemma PlainCode(s: string)
    requires !EndsWith(s, ".0") && ' ' !in s
    requires s == [] || (!IsSpace(s[0]) && !IsSpace(s[|s| - 1]))
    ensures NormalizedKonto(Some(s)) == RemoveEach(s, Separators)
  {
  }

}

/** Worked inputs of `norm_konto`, evaluated step by step. */
module KontoExamples {
  import opened Wrappers
  import opened Text
  import opened Konto

  /**
   * Normalisation is not idempotent in general: a tab behind a leading separator survives
   * the first pass (it is not at the edge when `strip` runs) and is stripped by the second.
   */
  lemma NotIdempotentWithTab()
    ensures NormalizedKonto(Some("-\t1")) == "\t1"
    ensures NormalizedKonto(Some(NormalizedKonto(Some("-\t1")))) == "1"
  {
    PlainCode("-\t1");
    TabSeparatorRemoved();
    TabStripped();
  }

  lemma TabSeparatorRemoved()
    ensures RemoveEach("-\t1", Separators) == "\t1"
  {
    SeparatorDropped("-\t1", "\t1");
  }

  /** A code behind a leading '-' loses just that '-'. */
  lemma SeparatorDropped(s: string, rest: string)
    requires s == ['-'] + rest && IsCode(rest)
    ensures RemoveEach(s, Separators) == rest
  {
    RemoveEachStep(s, Separators);
    assert RemoveChar(s, '-') == rest by {
      assert s[1..] == rest;
    }
    NoSeparator(rest, 1);
  }

  lemma TabStripped()
    ensures NormalizedKonto(Some("\t1")) == "1"
  {
    LeadingTabStripped();
    assert IsCode("1");
    NormalizedStripped("\t1", "1");
  }

  /** Text with no '.' whose stripped form is a code normalises to that stripped form. */
  lemma NormalizedStripped(s: string, t: string)
    requires '.' !in s && Strip(s) == t && IsCode(t)
    ensures NormalizedKonto(Some(s)) == t
  {
    NoPointZero(s);
  }

  lemma LeadingTabStripped()
    ensures Strip("\t1") == "1"
  {
    GraphicNotSpace('1');
    assert "\t1" == ['\t'] + "1";
    StripLeading('\t', "1");
  }

  /** The two spellings of one account used in a journal, "100-1" and "100.1", normalise alike. */
  lemma SeparatorsIgnored()
    ensures NormalizedKonto(Some("100-1")) == NormalizedKonto(Some("100.1")) == "1001"
  {
    PlainCode("100-1");
    PlainCode("100.1");
    DashRemoved();
    DotRemoved();
  }

  lemma DashRemoved()
    ensures RemoveEach("100-1", Separators) == "1001"
  {
    DashRemovedFirst();
    NoSeparatorLeft();
  }

  lemma DashRemovedFirst()
    ensures RemoveEach("100-1", Separators) == RemoveEach("1001", Separators[2..])
  {
    DashRemovedOnce();
    assert '.' !in "100-1";
    DotFreeSteps("100-1");
  }

  /** Without a '.', the first two passes remove only the dashes. */
  lemma DotFreeSteps(s: string)
    requires '.' !in s
    ensures RemoveEach(s, Separators) == RemoveEach(RemoveChar(s, '-'), Separators[2..])
  {
    RemoveEachStep(s, Separators);
    RemoveEachStep(s, Separators[1..]);
    assert Separators[1..][1..] == Separators[2..];
  }

  lemma NoSeparatorLeft()
    ensures RemoveEach("1001", Separators[2..]) == "1001"
    ensures RemoveEach("1001", Separators[1..]) == "1001"
    ensures RemoveEach("1001", Separators) == "1001"
  {
    NoSeparator("1001", 2);
    NoSeparator("1001", 1);
    NoSeparator("1001", 0);
  }

  lemma NoSeparator(s: string, k: nat)
    requires k <= |Separators| && IsCode(s)
    ensures RemoveEach(s, Separators[k..]) == s
  {
  }

  lemma DashRemovedOnce()
    ensures RemoveChar("100-1", '-') == "1001"
  {
    assert "100-1"[1..] == "00-1" && "00-1"[1..] == "0-1" && "0-1"[1..] == "-1" && "-1"[1..] == "1";
  }

  lemma DotRemoved()
    ensures RemoveEach("100.1", Separators) == "1001"
  {
    DotRemovedFirst();
    NoSeparatorLeft();
  }

  lemma DotRemovedFirst()
    ensures RemoveEach("100.1", Separators) == RemoveEach("1001", Separators[1..])
  {
    DotRemovedOnce();
  }

  lemma DotRemovedOnce()
    ensures RemoveChar("100.1", '.') == "1001"
  {
    assert "100.1"[1..] == "00.1" && "00.1"[1..] == "0.1" && "0.1"[1..] == ".1" && ".1"[1..] == "1";
  }

  /** The ".0" a spreadsheet adds to a numeric account cell is dropped: "1001.0" gives "1001". */
  lemma PointZeroDropped()
    ensures NormalizedKonto(Some("1001.0")) == "1001"
  {
    PointZeroRemovedOnce();
    PlainCode("1001");
    NoSeparatorLeft();
  }

  lemma PointZeroRemovedOnce()
    ensures DropPointZero("1001.0") == "1001"
  {
  }
}
