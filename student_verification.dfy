/**
 * StudentVerification: recognising a student e-mail from its domain, the
 * checks on an uploaded student document, and the student price table.
 */
module StudentVerification {
  import opened Wrappers
  import opened Strings

  /** TURKISH_EDU_DOMAINS, in the order they are tried. */
  const TurkishEduDomains: seq<string> := [
      "edu.tr",
      "std.yeditepe.edu.tr",
      "stu.khas.edu.tr",
      "ogr.iu.edu.tr",
      "std.iyte.edu.tr",
      "ogr.deu.edu.tr",
      "std.boun.edu.tr",
      "metu.edu.tr",
      "itu.edu.tr",
      "sabanciuniv.edu",
      "ku.edu.tr",
      "bilkent.edu.tr",
      "hacettepe.edu.tr",
      "ankara.edu.tr",
      "gazi.edu.tr",
      "ege.edu.tr",
      "marmara.edu.tr",
      "yildiz.edu.tr",
      "baskent.edu.tr",
      "atilim.edu.tr",
      "cankaya.edu.tr",
      "tobb.edu.tr",
      "etu.edu.tr",
      "ozyegin.edu.tr",
      "bahcesehir.edu.tr",
      "medipol.edu.tr",
      "beykent.edu.tr",
      "maltepe.edu.tr",
      "gelisim.edu.tr",
      "aydin.edu.tr",
      "fsm.edu.tr",
      "altinbas.edu.tr",
      "uskudar.edu.tr",
      "rumeli.edu.tr",
      "dogus.edu.tr",
      "kemerburgaz.edu.tr",
      "izmir.edu.tr",
      "yasar.edu.tr",
      "okan.edu.tr"
    ]

  /** INTERNATIONAL_EDU_DOMAINS, tried after every Turkish domain. */
  const InternationalEduDomains: seq<string> := ["edu", "ac.uk", "edu.au", "edu.cn", "ac.jp", "edu.sg", "edu.my", "ac.nz"]

  const InternationalName := "International University"
  const TurkishReason := "✅ Türk üniversitesi e-maili tespit edildi"
  const InternationalReason := "✅ Uluslararası eğitim kurumu e-maili"
  const NotStudentReason := "❌ Öğrenci e-maili değil"

  /** The (is_student, university, reason) triple of is_student_email. */
  datatype EmailCheck = EmailCheck(isStudent: bool, university: string, reason: string)

  /** email.lower().strip() */
  function Normalize(email: string): string
  {
    Strip(Lower(email))
  }

  /** The Turkish test: endswith('@' + d) or '@' + d in e. */
  predicate TurkishMatch(e: string, d: string)
  {
    EndsWith(e, "@" + d) || Contains(e, "@" + d)
  }

  /** The international test: endswith('.' + d) or '@' + d in e. */
  predicate InternationalMatch(e: string, d: string)
  {
    EndsWith(e, "." + d) || Contains(e, "@" + d)
  }

  /** The position of the first domain that hit accepts, as a for loop with an early return finds it. */
  function FirstMatch(ds: seq<string>, hit: string -> bool): (r: Option<nat>)
    ensures r.Some? ==> r.value < |ds| && hit(ds[r.value]) && forall j :: 0 <= j < r.value ==> !hit(ds[j])
    ensures r.None? <==> forall j :: 0 <= j < |ds| ==> !hit(ds[j])
  {
    if ds == [] then None
    else if hit(ds[0]) then Some(0)
    else match FirstMatch(ds[1..], hit)
      case None => None
      case Some(k) => Some(k + 1)
  }

  /** The university name derived from a Turkish domain: the four removals, the first dot segment, upper-cased. */
  function UniversityName(d: string): string
  {
    Upper(FirstSegment(RemoveAll(RemoveAll(RemoveAll(RemoveAll(d, ".edu.tr"), "std."), "ogr."), "stu.")))
  }

  /** is_student_email */
  function IsStudentEmail(email: string): EmailCheck
  {
    var e := Normalize(email);
    match FirstMatch(TurkishEduDomains, d => TurkishMatch(e, d))
    case Some(i) => EmailCheck(true, UniversityName(TurkishEduDomains[i]), TurkishReason)
    case None =>
      if FirstMatch(InternationalEduDomains, d => InternationalMatch(e, d)).Some? then
        EmailCheck(true, InternationalName, InternationalReason)
      else
        EmailCheck(false, "", NotStudentReason)
  }

  /** Normalising twice is normalising once. */
  lemma NormalizeIdempotent(email: string)
    ensures Normalize(Normalize(email)) == Normalize(email)
  {
    var l := Lower(email);
    LowerHasNoUpper(email);
    var a, b := StripIsSlice(l);
    var s := Strip(l);
    assert NoUpper(s) by {
      forall i | 0 <= i < |s| ensures !IsUpperAscii(s[i]) {
        assert s[i] == l[a + i];
      }
    }
    LowerOfNoUpper(s);
    StripIdempotent(l);
  }

  /** The verdict depends only on the lower-cased, stripped address. */
  lemma NormalizedVerdict(email: string)
    ensures IsStudentEmail(Normalize(email)) == IsStudentEmail(email)
  {
    NormalizeIdempotent(email);
  }

  /** Testing endswith('@' + d) adds nothing: the Turkish test is the substring test. */
  lemma TurkishMatchIsContains(e: string, d: string)
    ensures TurkishMatch(e, d) <==> Contains(e, "@" + d)
  {
    if EndsWith(e, "@" + d) {
      EndsWithContains(e, "@" + d);
    }
  }

  /** A name that is all upper case is never the international label. */
  lemma NotInternationalName(s: string)
    requires s == Upper(s)
    ensures s != InternationalName
  {
    if |s| == |InternationalName| {
      UpperHasNoLower(s, 1);
      assert IsLowerAscii(InternationalName[1]);
    }
  }

  lemma UpperIdempotent(s: string)
    ensures Upper(Upper(s)) == Upper(s)
  {
    forall i | 0 <= i < |s| ensures Upper(Upper(s))[i] == Upper(s)[i] {
      UpperHasNoLower(s, i);
    }
  }

  /**
   * The first Turkish domain whose '@' form occurs in the address decides:
   * the result is a student with that domain's university name, which is never
   * the international label.
   */
  lemma TurkishFirstWins(email: string, i: nat)
    requires i < |TurkishEduDomains|
    requires Contains(Normalize(email), "@" + TurkishEduDomains[i])
    requires forall j :: 0 <= j < i ==> !Contains(Normalize(email), "@" + TurkishEduDomains[j])
    ensures IsStudentEmail(email) == EmailCheck(true, UniversityName(TurkishEduDomains[i]), TurkishReason)
    ensures IsStudentEmail(email).university != InternationalName
  {
    var e := Normalize(email);
    var hit := d => TurkishMatch(e, d);
    TurkishMatchIsContains(e, TurkishEduDomains[i]);
    forall j | 0 <= j < i ensures !hit(TurkishEduDomains[j]) {
      TurkishMatchIsContains(e, TurkishEduDomains[j]);
    }
    assert hit(TurkishEduDomains[i]);
    var u := UniversityName(TurkishEduDomains[i]);
    UpperIdempotent(FirstSegment(RemoveAll(RemoveAll(RemoveAll(RemoveAll(TurkishEduDomains[i], ".edu.tr"), "std."), "ogr."), "stu.")));
    NotInternationalName(u);
  }

  /** Some domain of ds has its '@' form in e. */
  predicate AnyAtDomain(e: string, ds: seq<string>)
  {
    exists i :: 0 <= i < |ds| && Contains(e, "@" + ds[i])
  }

  /** Some domain of ds passes the international test on e. */
  predicate AnyInternational(e: string, ds: seq<string>)
  {
    exists j :: 0 <= j < |ds| && InternationalMatch(e, ds[j])
  }

  /** The Turkish search finds a domain exactly when one has its '@' form in e. */
  lemma TurkishSearch(e: string, ds: seq<string>)
    ensures FirstMatch(ds, d => TurkishMatch(e, d)).Some? <==> AnyAtDomain(e, ds)
  {
    var m := FirstMatch(ds, d => TurkishMatch(e, d));
    if m.Some? {
      TurkishMatchIsContains(e, ds[m.value]);
    }
  }

  /**
   * is_student is true exactly when some Turkish domain's '@' form occurs in
   * the normalised address, or some international domain matches it.
   */
  lemma StudentIffDomain(email: string)
    ensures IsStudentEmail(email).isStudent <==>
      AnyAtDomain(Normalize(email), TurkishEduDomains) || AnyInternational(Normalize(email), InternationalEduDomains)
  {
    var e := Normalize(email);
    TurkishSearch(e, TurkishEduDomains);
    var n := FirstMatch(InternationalEduDomains, d => InternationalMatch(e, d));
    if AnyInternational(e, InternationalEduDomains) {
      var j :| 0 <= j < |InternationalEduDomains| && InternationalMatch(e, InternationalEduDomains[j]);
      assert (d => InternationalMatch(e, d))(InternationalEduDomains[j]);
    }
  }

  /** Every Turkish domain yields a non-empty university name. */
  lemma TurkishNameNonEmpty(i: nat)
    requires i < |TurkishEduDomains|
    ensures UniversityName(TurkishEduDomains[i]) != []
  {
    var d := TurkishEduDomains[i];
    if d[0] !in ".so" {
      FirstCharKept(d);
    } else if d[1] !in ".sotg" {
      SecondCharKept(d);
    } else {
      PrefixedDomains(i);
    }
  }

  /** The six domains with a std., ogr. or stu. prefix. */
  lemma PrefixedDomains(i: nat)
    requires 1 <= i <= 6
    ensures UniversityName(TurkishEduDomains[i]) != []
  {
    var d := TurkishEduDomains[i];
    if i == 1 {
      assert d == "std." + "yeditepe" + ".edu.tr";
      PrefixedName("std.", "yeditepe");
    } else if i == 2 {
      assert d == "stu." + "khas" + ".edu.tr";
      PrefixedName("stu.", "khas");
    } else if i == 3 {
      assert d == "ogr." + "iu" + ".edu.tr";
      PrefixedName("ogr.", "iu");
    } else {
      LaterPrefixedDomains(d);
    }
  }

  lemma LaterPrefixedDomains(d: string)
    requires d == "std.iyte.edu.tr" || d == "ogr.deu.edu.tr" || d == "std.boun.edu.tr"
    ensures UniversityName(d) != []
  {
    if d == "std.iyte.edu.tr" {
      assert d == "std." + "iyte" + ".edu.tr";
      PrefixedName("std.", "iyte");
    } else if d == "ogr.deu.edu.tr" {
      assert d == "ogr." + "deu" + ".edu.tr";
      PrefixedName("ogr.", "deu");
    } else {
      assert d == "std." + "boun" + ".edu.tr";
      PrefixedName("std.", "boun");
    }
  }

  /** is_student is false exactly when the university is empty. */
  lemma StudentIffUniversity(email: string)
    ensures IsStudentEmail(email).isStudent <==> IsStudentEmail(email).university != ""
  {
    var e := Normalize(email);
    var m := FirstMatch(TurkishEduDomains, d => TurkishMatch(e, d));
    if m.Some? {
      TurkishNameNonEmpty(m.value);
    }
  }

  // The shapes of the Turkish domains, and what the removals make of them.

  /** Placing p at position i of s disagrees with s at position k or m of p. */
  predicate Mismatch(s: string, p: string, i: int, k: nat, m: nat)
    requires k < |p| && m < |p|
  {
    0 <= i && i + |p| <= |s| ==> s[i + k] != p[k] || s[i + m] != p[m]
  }

  /** p does not occur in s when every placement of p disagrees with s at position k or m of p. */
  lemma AbsentByChars(s: string, p: string, k: nat, m: nat)
    requires k < |p| && m < |p|
    requires forall i :: Mismatch(s, p, i, k, m)
    ensures forall i :: !OccursAt(s, p, i)
  {
    forall i ensures !OccursAt(s, p, i) {
      assert Mismatch(s, p, i, k, m);
      if 0 <= i && i + |p| <= |s| {
        assert s[i..i + |p|][k] == s[i + k] && s[i..i + |p|][m] == s[i + m];
      }
    }
  }

  /** A pattern holding a dot does not occur in a dot-free string. */
  lemma DotFreeAbsent(s: string, p: string, k: nat)
    requires k < |p| && p[k] == '.'
    requires DotFree(s)
    ensures forall i :: !OccursAt(s, p, i)
    ensures RemoveAll(s, p) == s
  {
    AbsentByChars(s, p, k, k);
    RemoveAbsent(s, p);
  }

  /** replace('.edu.tr', '') on x + '.edu.tr' gives x when no occurrence starts inside x. */
  lemma RemoveSuffixEdu(x: string)
    requires forall i :: 0 <= i < |x| ==> !OccursAt(x + ".edu.tr", ".edu.tr", i)
    ensures RemoveAll(x + ".edu.tr", ".edu.tr") == x
  {
    RemoveKeepsPrefix(x, ".edu.tr", ".edu.tr");
    RemoveLeading([], ".edu.tr");
    assert ".edu.tr" + [] == ".edu.tr";
  }

  /** replace(p, '') keeps the first character when p cannot start there. */
  lemma RemoveHead(s: string, p: string)
    requires |p| > 1 && s != []
    requires s[0] != p[0] || (|s| > 1 && s[1] != p[1])
    ensures RemoveAll(s, p) == [s[0]] + RemoveAll(s[1..], p)
  {
    if |s| >= |p| {
      assert s[..|p|][0] == s[0];
      if |s| > 1 {
        assert s[..|p|][1] == s[1];
      }
    } else {
      assert s == [s[0]] + s[1..];
    }
  }

  /** A domain whose first character is none of '.', 's', 'o' keeps it through the four removals. */
  lemma FirstCharKept(d: string)
    requires d != [] && d[0] !in ".so"
    ensures UniversityName(d) != []
  {
    RemoveHead(d, ".edu.tr");
    var r1 := RemoveAll(d, ".edu.tr");
    RemoveHead(r1, "std.");
    var r2 := RemoveAll(r1, "std.");
    RemoveHead(r2, "ogr.");
    var r3 := RemoveAll(r2, "ogr.");
    RemoveHead(r3, "stu.");
    var r4 := RemoveAll(r3, "stu.");
    assert r4[0] == d[0];
  }

  /**
   * A domain whose second character is none of '.', 's', 'o', 't', 'g' keeps
   * its first two characters through the four removals.
   */
  lemma SecondCharKept(d: string)
    requires |d| > 1 && d[0] != '.' && d[1] !in ".sotg"
    ensures UniversityName(d) != []
  {
    RemoveHead(d, ".edu.tr");
    RemoveHead(d[1..], ".edu.tr");
    var r1 := RemoveAll(d, ".edu.tr");
    assert r1[1] == d[1];
    RemoveHead(r1, "std.");
    RemoveHead(r1[1..], "std.");
    var r2 := RemoveAll(r1, "std.");
    assert r2[1] == d[1];
    RemoveHead(r2, "ogr.");
    RemoveHead(r2[1..], "ogr.");
    var r3 := RemoveAll(r2, "ogr.");
    assert r3[1] == d[1];
    RemoveHead(r3, "stu.");
    var r4 := RemoveAll(r3, "stu.");
    assert r4[0] == d[0];
  }

  /** In pre + name, with pre three letters and a dot, a four-character pattern ending in a dot occurs only as pre. */
  lemma RemovePrefixStep(pre: string, name: string, p: string)
    requires |pre| == 4 && pre[3] == '.' && DotFree(pre[..3])
    requires |p| == 4 && p[3] == '.'
    requires DotFree(name)
    ensures RemoveAll(pre + name, p) == if pre == p then name else pre + name
  {
    var w := pre + name;
    if pre == p {
      RemoveLeading(name, p);
      DotFreeAbsent(name, p, 3);
    } else {
      forall i ensures !OccursAt(w, p, i) {
        if i == 0 {
          assert w[0..4] == pre;
        } else if 0 < i && i + 4 <= |w| {
          assert w[i..i + 4][3] == w[i + 3] == name[i - 1];
        }
      }
      RemoveAbsent(w, p);
    }
  }

  /** A prefixed domain pre + name + '.edu.tr' yields the upper-cased name. */
  lemma PrefixedName(pre: string, name: string)
    requires pre == "std." || pre == "ogr." || pre == "stu."
    requires name != [] && DotFree(name) && name[0] != 'e'
    ensures UniversityName(pre + name + ".edu.tr") == Upper(name)
  {
    var x := pre + name;
    var w := x + ".edu.tr";
    assert DotFree(pre[..3]);
    forall i | 0 <= i < |x| ensures !OccursAt(w, ".edu.tr", i) {
      if i + 7 <= |w| {
        assert w[i..i + 7][0] == w[i] && w[i..i + 7][1] == w[i + 1];
        if i < 3 {
          assert w[i] == pre[..3][i];
        } else if i > 3 {
          assert w[i] == name[i - 4];
        } else {
          assert w[i + 1] == name[0];
        }
      }
    }
    assert pre + name + ".edu.tr" == w;
    RemoveSuffixEdu(x);
    RemovePrefixStep(pre, name, "std.");
    if pre == "std." {
      DotFreeAbsent(name, "ogr.", 3);
      DotFreeAbsent(name, "stu.", 3);
    } else {
      RemovePrefixStep(pre, name, "ogr.");
      if pre == "ogr." {
        DotFreeAbsent(name, "stu.", 3);
      } else {
        RemovePrefixStep(pre, name, "stu.");
      }
    }
    FirstSegmentOfDotFree(name, []);
    assert name + [] == name;
  }

  /** In an address with a single '@', a Turkish domain matches exactly when it follows that '@'. */
  lemma SingleAt(e: string, k: nat, d: string)
    requires k < |e| && e[k] == '@'
    requires forall j :: 0 <= j < |e| && j != k ==> e[j] != '@'
    ensures Contains(e, "@" + d) <==> OccursAt(e, "@" + d, k)
  {
    var p := "@" + d;
    if Contains(e, p) {
      var i :| 0 <= i <= |e| - |p| && OccursAt(e, p, i);
      assert e[i..i + |p|][0] == e[i];
    }
  }

  /** In an address with a single '@' at k, d does not follow it when the address disagrees with d at some position m. */
  lemma MissAfterAt(e: string, k: nat, d: string, m: nat)
    requires k < |e| && e[k] == '@'
    requires forall j :: 0 <= j < |e| && j != k ==> e[j] != '@'
    requires m < |d| && (|e| <= k + 1 + m || e[k + 1 + m] != d[m])
    ensures !Contains(e, "@" + d)
  {
    SingleAt(e, k, d);
    var p := "@" + d;
    if k + |p| <= |e| {
      assert e[k..k + |p|][1 + m] == e[k + 1 + m];
      assert p[1 + m] == d[m];
    }
  }

  /** None of the first six Turkish domains follows the '@' of ad@std.boun.edu.tr. */
  lemma BounEarlierMisses(j: nat)
    requires j < 6
    ensures !Contains("ad@std.boun.edu.tr", "@" + TurkishEduDomains[j])
  {
    var e := "ad@std.boun.edu.tr";
    var d := TurkishEduDomains[j];
    if j == 0 {
      assert d == "edu.tr";
      MissAfterAt(e, 2, d, 0);
    } else if j == 1 {
      assert d == "std.yeditepe.edu.tr";
      MissAfterAt(e, 2, d, 15);
    } else if j == 2 {
      assert d == "stu.khas.edu.tr";
      MissAfterAt(e, 2, d, 2);
    } else if j == 3 {
      assert d == "ogr.iu.edu.tr";
      MissAfterAt(e, 2, d, 0);
    } else if j == 4 {
      assert d == "std.iyte.edu.tr";
      MissAfterAt(e, 2, d, 4);
    } else {
      assert d == "ogr.deu.edu.tr";
      MissAfterAt(e, 2, d, 0);
    }
  }

  /** std.boun.edu.tr does follow it. */
  lemma BounHit()
    ensures Contains("ad@std.boun.edu.tr", "@" + TurkishEduDomains[6])
  {
    var e := "ad@std.boun.edu.tr";
    var p := "@" + TurkishEduDomains[6];
    assert e == "ad" + p;
    assert e[2..2 + |p|] == p;
    assert OccursAt(e, p, 2);
  }

  lemma BounNormalized()
    ensures Normalize("ad@std.boun.edu.tr") == "ad@std.boun.edu.tr"
  {
    var e := "ad@std.boun.edu.tr";
    assert NoUpper(e);
    LowerOfNoUpper(e);
    StripOfTrimmed(e);
  }

  /** The name derivation on std.boun.edu.tr gives BOUN. */
  lemma BounName()
    ensures UniversityName(TurkishEduDomains[6]) == "BOUN"
  {
    PrefixedName("std.", "boun");
    assert "std." + "boun" + ".edu.tr" == TurkishEduDomains[6];
    assert Upper("boun") == "BOUN";
  }

  /** The documented example: ad@std.boun.edu.tr is a BOUN student. */
  lemma BounExample()
    ensures IsStudentEmail("ad@std.boun.edu.tr") == EmailCheck(true, "BOUN", TurkishReason)
  {
    var e := "ad@std.boun.edu.tr";
    BounNormalized();
    forall j | 0 <= j < 6 ensures !Contains(Normalize(e), "@" + TurkishEduDomains[j]) {
      BounEarlierMisses(j);
    }
    BounHit();
    TurkishFirstWins(e, 6);
    BounName();
  }

  // verify_with_document

  /** The uploaded file's MIME type and size in bytes. */
  datatype Upload = Upload(mimeType: string, size: nat)

  /** The (success, message) pair of verify_with_document. */
  datatype DocumentReply = DocumentReply(success: bool, message: string)

  const AcceptedTypes: seq<string> := ["image/jpeg", "image/png", "application/pdf"]
  const MaxDocumentSize: nat := 5 * 1024 * 1024
  const NoDocumentMessage := "❌ Lütfen bir belge yükleyin"
  const BadTypeMessage := "❌ Sadece JPG, PNG veya PDF dosyaları kabul edilir"
  const TooLargeMessage := "❌ Dosya boyutu 5MB'dan küçük olmalıdır"
  const ReceivedMessage := "✅ Belgeniz alındı! 24 saat içinde incelenecektir."

  /** verify_with_document: no file, then the type, then the size. */
  function VerifyWithDocument(upload: Option<Upload>): DocumentReply
  {
    match upload
    case None => DocumentReply(false, NoDocumentMessage)
    case Some(f) =>
      if f.mimeType !in AcceptedTypes then DocumentReply(false, BadTypeMessage)
      else if f.size > MaxDocumentSize then DocumentReply(false, TooLargeMessage)
      else DocumentReply(true, ReceivedMessage)
  }

  /**
   * A document is accepted exactly when a file of an accepted type of at most
   * 5 MiB was uploaded; a wrong type is reported whatever the size, and a
   * file of exactly 5 MiB passes.
   */
  lemma DocumentChecks(upload: Option<Upload>)
    ensures VerifyWithDocument(upload).success <==>
      upload.Some? && upload.value.mimeType in AcceptedTypes && upload.value.size <= 5242880
    ensures upload.None? ==> VerifyWithDocument(upload).message == NoDocumentMessage
    ensures upload.Some? && upload.value.mimeType !in AcceptedTypes ==>
      VerifyWithDocument(upload) == DocumentReply(false, BadTypeMessage)
    ensures upload.Some? && upload.value.mimeType in AcceptedTypes && upload.value.size > 5242880 ==>
      VerifyWithDocument(upload) == DocumentReply(false, TooLargeMessage)
    ensures VerifyWithDocument(Some(Upload("application/pdf", 5242880))).success
  {
  }

  // get_student_price

  /** One STUDENT_DISCOUNTS entry. */
  datatype StudentDiscount = StudentDiscount(originalPrice: real, studentPrice: real, discountPercent: nat)

  const StudentDiscounts: map<string, StudentDiscount> := map[
    "pro" := StudentDiscount(9.0, 4.99, 45),
    "business" := StudentDiscount(29.0, 14.99, 48)
  ]

  /** get_student_price: the entry for the package, or None for the empty dict. */
  function GetStudentPrice(package: string): Option<StudentDiscount>
  {
    if package in StudentDiscounts then Some(StudentDiscounts[package]) else None
  }

  /**
   * Only pro and business (spelled exactly so) have a student price; it is
   * below the original price, and the advertised percentage is within one
   * point of the actual saving.
   */
  lemma StudentPriceSpec(package: string)
    ensures GetStudentPrice(package).Some? <==> package == "pro" || package == "business"
    ensures GetStudentPrice(package).Some? ==>
      var d := GetStudentPrice(package).value;
      && 0.0 < d.studentPrice < d.originalPrice
      && var saving := (d.originalPrice - d.studentPrice) * 100.0;
         (d.discountPercent as real - 1.0) * d.originalPrice < saving < (d.discountPercent as real + 1.0) * d.originalPrice
  {
  }
}
