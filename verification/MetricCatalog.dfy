/** The two versions of the indicator catalogue: nine domains, each with numbered
    indicators.  Titles are a parameter wherever they matter. */
module MetricCatalog {
  import Text

  datatype Framework = Current | Legacy

  function Version(f: Framework): string {
    match f
    case Current => "2.0"
    case Legacy => "1.0"
  }

  /** The domains in order, with the number of their indicators. */
  datatype Domains = End | Domain(prefix: string, count: nat, rest: Domains)

  function DomainsOf(f: Framework): Domains {
    match f
    case Current => Chain(8, 5, 2, 5, 3, 6, 7, 7, 3)
    case Legacy => Chain(10, 10, 10, 8, 7, 8, 7, 7, 7)
  }

  function Chain(edu: nat, dev: nat, chr: nat, dis: nat, cul: nat, res: nat, spt: nat, art: nat, per: nat): Domains {
    Domain("EDU", edu, Domain("DEV", dev, Domain("CHR", chr, LastSix(dis, cul, res, spt, art, per))))
  }

  function LastSix(dis: nat, cul: nat, res: nat, spt: nat, art: nat, per: nat): Domains {
    Domain("DIS", dis, Domain("CUL", cul, Domain("RES", res, LastThree(spt, art, per))))
  }

  function LastThree(spt: nat, art: nat, per: nat): Domains {
    Domain("SPT", spt, Domain("ART", art, Domain("PER", per, End)))
  }

  function Code(prefix: string, index: nat): string
    requires index < 100
  {
    prefix + "_" + [Text.DigitChar(index / 10), Text.DigitChar(index % 10)]
  }

  function Numbered(prefix: string, count: nat): (codes: seq<string>)
    requires count < 100
    ensures |codes| == count
    ensures forall i :: 0 <= i < count ==> codes[i] == Code(prefix, i + 1)
  {
    if count == 0 then [] else Numbered(prefix, count - 1) + [Code(prefix, count)]
  }

  /** Upper-case prefixes of three letters, none of them twice. */
  predicate WellFormed(d: Domains) {
    d.End? || (&& d.count < 100 && WellFormed(d.rest) && d.prefix !in Prefixes(d.rest)
               && |d.prefix| == 3 && forall i :: 0 <= i < 3 ==> 'A' <= d.prefix[i] <= 'Z')
  }

  function Prefixes(d: Domains): set<string> {
    if d.End? then {} else {d.prefix} + Prefixes(d.rest)
  }

  function CodesOf(d: Domains): seq<string>
    requires WellFormed(d)
  {
    if d.End? then [] else Numbered(d.prefix, d.count) + CodesOf(d.rest)
  }

  function Total(d: Domains): nat {
    if d.End? then 0 else d.count + Total(d.rest)
  }

  lemma {:induction false} CodesAreCounted(d: Domains)
    requires WellFormed(d)
    ensures |CodesOf(d)| == Total(d)
  {
    if d.Domain? {
      CodesAreCounted(d.rest);
    }
  }

  /** Six characters: capital letters, an underscore and digits. */
  predicate Plain(code: string) {
    |code| == 6 && forall i :: 0 <= i < 6 ==> 'A' <= code[i] <= 'Z' || code[i] == '_' || Text.IsAsciiDigit(code[i])
  }

  lemma {:induction false} CodesArePlain(d: Domains, i: nat)
    requires WellFormed(d) && i < |CodesOf(d)|
    ensures Plain(CodesOf(d)[i]) && CodesOf(d)[i][..3] in Prefixes(d)
  {
    if i < d.count {
      var code := Code(d.prefix, i + 1);
      assert code[..3] == d.prefix;
      assert forall k :: 0 <= k < 3 ==> code[k] == d.prefix[k];
    } else {
      CodesArePlain(d.rest, i - d.count);
    }
  }

  lemma TwoDigitsDiffer(prefix: string, i: nat, j: nat)
    requires i < j < 100
    ensures Code(prefix, i) != Code(prefix, j)
  {
    var a, b, n := Code(prefix, i), Code(prefix, j), |prefix|;
    assert a[n + 1] == Text.DigitChar(i / 10) && a[n + 2] == Text.DigitChar(i % 10);
    assert b[n + 1] == Text.DigitChar(j / 10) && b[n + 2] == Text.DigitChar(j % 10);
  }

  lemma {:induction false} CodesAreDistinct(d: Domains, i: nat, j: nat)
    requires WellFormed(d) && i < j < |CodesOf(d)|
    ensures CodesOf(d)[i] != CodesOf(d)[j]
  {
    if i >= d.count {
      CodesAreDistinct(d.rest, i - d.count, j - d.count);
    } else if j < d.count {
      TwoDigitsDiffer(d.prefix, i + 1, j + 1);
    } else {
      CodesArePlain(d.rest, j - d.count);
      assert Code(d.prefix, i + 1)[..3] == d.prefix;
    }
  }

  lemma Extended(prefix: string, count: nat, rest: Domains)
    requires WellFormed(rest) && count < 100 && prefix !in Prefixes(rest)
    requires |prefix| == 3 && forall i :: 0 <= i < 3 ==> 'A' <= prefix[i] <= 'Z'
    ensures var d := Domain(prefix, count, rest);
            WellFormed(d) && Total(d) == count + Total(rest) && Prefixes(d) == {prefix} + Prefixes(rest)
  {
  }

  lemma LastThreeFacts(spt: nat, art: nat, per: nat)
    requires spt < 100 && art < 100 && per < 100
    ensures WellFormed(LastThree(spt, art, per)) && Total(LastThree(spt, art, per)) == spt + art + per
    ensures Prefixes(LastThree(spt, art, per)) == {"SPT", "ART", "PER"}
  {
    Extended("PER", per, End);
    Extended("ART", art, Domain("PER", per, End));
    Extended("SPT", spt, Domain("ART", art, Domain("PER", per, End)));
  }

  lemma LastSixFacts(dis: nat, cul: nat, res: nat, spt: nat, art: nat, per: nat)
    requires dis < 100 && cul < 100 && res < 100 && spt < 100 && art < 100 && per < 100
    ensures WellFormed(LastSix(dis, cul, res, spt, art, per))
    ensures Total(LastSix(dis, cul, res, spt, art, per)) == dis + cul + res + spt + art + per
    ensures Prefixes(LastSix(dis, cul, res, spt, art, per)) == {"DIS", "CUL", "RES", "SPT", "ART", "PER"}
  {
    var last := LastThree(spt, art, per);
    LastThreeFacts(spt, art, per);
    Extended("RES", res, last);
    Extended("CUL", cul, Domain("RES", res, last));
    Extended("DIS", dis, Domain("CUL", cul, Domain("RES", res, last)));
  }

  lemma ChainFacts(edu: nat, dev: nat, chr: nat, dis: nat, cul: nat, res: nat, spt: nat, art: nat, per: nat)
    requires edu < 100 && dev < 100 && chr < 100 && dis < 100 && cul < 100 && res < 100
    requires spt < 100 && art < 100 && per < 100
    ensures WellFormed(Chain(edu, dev, chr, dis, cul, res, spt, art, per))
    ensures Total(Chain(edu, dev, chr, dis, cul, res, spt, art, per)) == edu + dev + chr + dis + cul + res + spt + art + per
  {
    var last := LastSix(dis, cul, res, spt, art, per);
    LastSixFacts(dis, cul, res, spt, art, per);
    Extended("CHR", chr, last);
    Extended("DEV", dev, Domain("CHR", chr, last));
    Extended("EDU", edu, Domain("DEV", dev, Domain("CHR", chr, last)));
  }

  lemma DomainsAreWellFormed(f: Framework)
    ensures WellFormed(DomainsOf(f))
    ensures Total(DomainsOf(f)) == match f case Current => 46 case Legacy => 74
  {
    ChainFacts(8, 5, 2, 5, 3, 6, 7, 7, 3);
    ChainFacts(10, 10, 10, 8, 7, 8, 7, 7, 7);
  }

  function Codes(f: Framework): seq<string> {
    DomainsAreWellFormed(f);
    CodesOf(DomainsOf(f))
  }

  /** The catalogue has 46 or 74 indicators with distinct, plain codes. */
  lemma CatalogFacts(f: Framework)
    ensures |Codes(f)| == match f case Current => 46 case Legacy => 74
    ensures forall i :: 0 <= i < |Codes(f)| ==> Plain(Codes(f)[i])
    ensures forall i, j :: 0 <= i < j < |Codes(f)| ==> Codes(f)[i] != Codes(f)[j]
  {
    var d := DomainsOf(f);
    DomainsAreWellFormed(f);
    CodesAreCounted(d);
    forall i | 0 <= i < |CodesOf(d)| ensures Plain(CodesOf(d)[i]) {
      CodesArePlain(d, i);
    }
    forall i, j | 0 <= i < j < |CodesOf(d)| ensures CodesOf(d)[i] != CodesOf(d)[j] {
      CodesAreDistinct(d, i, j);
    }
  }

  /** The number of indicators of a version. */
  function CatalogSize(f: Framework): (n: nat)
    ensures n == |Codes(f)|
  {
    CatalogFacts(f);
    match f
    case Current => 46
    case Legacy => 74
  }

  lemma FirstOfSecondDomain(d: Domains)
    requires WellFormed(d) && d.Domain? && d.rest.Domain? && d.rest.count > 0
    ensures |CodesOf(d)| > d.count && CodesOf(d)[d.count] == Code(d.rest.prefix, 1)
  {
  }

  lemma InFirstDomain(d: Domains, i: nat)
    requires WellFormed(d) && d.Domain? && i < d.count
    ensures |CodesOf(d)| > i && CodesOf(d)[i] == Code(d.prefix, i + 1)
  {
  }

  /** The ninth indicator tells the versions apart. */
  lemma NinthCode()
    ensures |Codes(Current)| > 8 && |Codes(Legacy)| > 8
    ensures Codes(Current)[8] != Codes(Legacy)[8]
  {
    DomainsAreWellFormed(Current);
    DomainsAreWellFormed(Legacy);
    FirstOfSecondDomain(DomainsOf(Current));
    InFirstDomain(DomainsOf(Legacy), 8);
    assert Code("DEV", 1)[0] == 'D' && Code("EDU", 9)[0] == 'E';
  }
}
