/** Concrete runs of the queries on the data the repository's own tests use. */
module Scenarios {
  import opened Records
  import opened Seqs
  import Text
  import CertificateQueries

  /** Four certificates expiring yesterday, today, in three days and in ten days. */
  function ExpiryFixture(today: Date): seq<EmployeeCertificate> {
    [ EmployeeCertificate(10, "1", "", "", today - 365, today - 1),
      EmployeeCertificate(10, "1", "", "", today - 200, today),
      EmployeeCertificate(20, "2", "", "", today - 100, today + 3),
      EmployeeCertificate(20, "2", "", "", today - 50, today + 10) ]
  }

  /** `[x]` if `x` passes the filter, `[]` otherwise. */
  function Keep<T>(x: T, p: T -> bool): (r: seq<T>)
    ensures |r| <= 1
    ensures r == [] <==> !p(x)
  {
    if p(x) then [x] else []
  }

  /** Filtering a prefix one element longer. */
  lemma FilterPrefixStep<T(!new)>(s: seq<T>, i: nat, p: T -> bool)
    requires i < |s|
    ensures Filter(s[..i + 1], p) == Filter(s[..i], p) + Keep(s[i], p)
  {
    assert s[..i + 1] == s[..i] + [s[i]];
    FilterSnoc(s[..i], s[i], p);
  }

  /** A filter that passes only the middle two of four elements. */
  lemma FilterKeepsMiddleTwo<T(!new)>(s: seq<T>, p: T -> bool)
    requires |s| == 4 && !p(s[0]) && p(s[1]) && p(s[2]) && !p(s[3])
    ensures Filter(s, p) == [s[1], s[2]]
  {
    assert s[..0] == [];
    FilterPrefixStep(s, 0, p);
    FilterPrefixStep(s, 1, p);
    FilterPrefixStep(s, 2, p);
    FilterPrefixStep(s, 3, p);
    assert s[..4] == s;
  }

  /** A filter that passes the first two of three elements and not the third. */
  lemma FilterKeepsFirstTwo<T(!new)>(s: seq<T>, p: T -> bool)
    requires |s| == 3 && p(s[0]) && p(s[1]) && !p(s[2])
    ensures Filter(s, p) == [s[0], s[1]]
  {
    assert s[..0] == [];
    FilterPrefixStep(s, 0, p);
    FilterPrefixStep(s, 1, p);
    FilterPrefixStep(s, 2, p);
    assert s[..3] == s;
  }

  /** The window `[today, today + 3]` keeps exactly the two certificates on
      its bounds, in order. */
  lemma BoundsAreInclusive(today: Date)
    ensures var certs := ExpiryFixture(today);
      CertificateQueries.ExpiringInRange(certs, today, today + 3) == [certs[1], certs[2]]
  {
    var certs := ExpiryFixture(today);
    FilterKeepsMiddleTwo(certs, CertificateQueries.ExpiresBetween(today, today + 3));
  }

  /** A window holding no expiry date gives the empty list. */
  lemma EmptyWindow(today: Date)
    ensures CertificateQueries.ExpiringInRange(ExpiryFixture(today), today + 20, today + 30) == []
  {
  }

  /** `[today - 2, today + 15]` keeps all four certificates: the one that
      expired yesterday lies inside it too. */
  lemma WideWindow(today: Date)
    ensures CertificateQueries.ExpiringInRange(ExpiryFixture(today), today - 2, today + 15) == ExpiryFixture(today)
  {
    var certs := ExpiryFixture(today);
    FilterKeepsAll(certs, CertificateQueries.ExpiresBetween(today - 2, today + 15));
  }

  const Asbestos: string := "Asbestos Abatement Techniques Certification"
  const Chainsaw: string := "Chainsaw Operation Certification"

  /** The search term "asbestos" finds the two Asbestos certificates and not
      the chainsaw one. */
  lemma AsbestosSearch()
    ensures var certs := [
        EmployeeCertificate(1, "C001", Asbestos, "CERT001", 0, 0),
        EmployeeCertificate(2, "C001", Asbestos, "CERT002", 0, 0),
        EmployeeCertificate(1, "C003", Chainsaw, "CERT003", 0, 0) ];
      CertificateQueries.FindByCertificateName(certs, "asbestos") == [certs[0], certs[1]]
  {
    var certs := [
        EmployeeCertificate(1, "C001", Asbestos, "CERT001", 0, 0),
        EmployeeCertificate(2, "C001", Asbestos, "CERT002", 0, 0),
        EmployeeCertificate(1, "C003", Chainsaw, "CERT003", 0, 0) ];
    AsbestosIsFound();
    ChainsawIsNotFound();
    FilterKeepsFirstTwo(certs, CertificateQueries.MatchesTerm("asbestos"));
  }

  /** "asbestos" occurs, ignoring case, in the Asbestos certificate's name. */
  lemma AsbestosIsFound()
    ensures Text.Contains(Text.Lower(Asbestos), Text.Lower("asbestos"))
  {
    var low := Text.Lower(Asbestos);
    assert Text.Lower("asbestos") == "asbestos";
    assert Asbestos == "Asbestos" + Asbestos[8..];
    assert low[..8] == "asbestos";
    assert Text.OccursAt(low, "asbestos", 0);
  }

  /** ... but not in the chainsaw certificate's name. */
  lemma ChainsawIsNotFound()
    ensures !Text.Contains(Text.Lower(Chainsaw), Text.Lower("asbestos"))
  {
    assert Text.Lower("asbestos") == "asbestos";
    NoLetterB(Text.Lower(Chainsaw));
  }

  /** "asbestos" cannot occur in a string without the letter b. */
  lemma NoLetterB(hay: string)
    requires forall j :: 0 <= j < |hay| ==> hay[j] != 'b'
    ensures !Text.Contains(hay, "asbestos")
  {
    forall i | 0 <= i <= |hay| - 8
      ensures !Text.OccursAt(hay, "asbestos", i)
    {
      assert hay[i..i + 8][2] == hay[i + 2] != "asbestos"[2];
    }
  }
}
