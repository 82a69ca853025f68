/**
 * PACKAGE_INFO and get_package_info: the three tiers and the
 * case-insensitive lookup that falls back to the free tier.
 */
module Packages {
  import opened Strings

  /** One PACKAGE_INFO record. */
  datatype PackageInfo = PackageInfo(limitMb: nat, pdfSupport: bool, multiFile: bool, price: string)

  const FreeInfo := PackageInfo(1, false, false, "Free")
  const ProInfo := PackageInfo(25, true, false, "$9/month")
  const BusinessInfo := PackageInfo(200, true, true, "$29/month")

  const PackageInfoTable: map<string, PackageInfo> := map[
    "free" := FreeInfo,
    "pro" := ProInfo,
    "business" := BusinessInfo
  ]

  /** get_package_info: the record of the lower-cased name, or the free record. */
  function GetPackageInfo(packageName: string): PackageInfo
  {
    var key := Lower(packageName);
    if key in PackageInfoTable then PackageInfoTable[key] else PackageInfoTable["free"]
  }

  /** The lookup ignores ASCII case: a name and its lower-cased form give the same record. */
  lemma CaseInsensitive(packageName: string)
    ensures GetPackageInfo(packageName) == GetPackageInfo(Lower(packageName))
  {
    LowerIdempotent(packageName);
  }

  /** get_package_info("PRO") is the pro record. */
  lemma UpperCaseExample()
    ensures GetPackageInfo("PRO") == GetPackageInfo("pro") == ProInfo
  {
    assert Lower("PRO") == "pro";
    assert Lower("pro") == "pro";
  }

  /** A name whose lower-cased form is a tier gives that tier's record; any other name gives the free record. */
  lemma LookupSpec(packageName: string)
    ensures Lower(packageName) in PackageInfoTable ==> GetPackageInfo(packageName) == PackageInfoTable[Lower(packageName)]
    ensures Lower(packageName) !in PackageInfoTable ==> GetPackageInfo(packageName) == FreeInfo
    ensures GetPackageInfo(packageName) in PackageInfoTable.Values
  {
    assert PackageInfoTable["free"] == FreeInfo;
  }

  /** PDF export is missing exactly on free, several files exactly on business. */
  lemma TierFeatures(k: string)
    requires k in PackageInfoTable
    ensures !PackageInfoTable[k].pdfSupport <==> k == "free"
    ensures PackageInfoTable[k].multiFile <==> k == "business"
  {
  }

  /** The size limit strictly increases from free to pro to business. */
  lemma LimitsIncrease()
    ensures PackageInfoTable["free"].limitMb < PackageInfoTable["pro"].limitMb < PackageInfoTable["business"].limitMb
  {
  }
}
