/**
 * PaymentManager's package rules: the PRICES table, how a checkout request
 * picks its price from (package, is_student), how verify_subscription reads
 * the package back from a subscription's metadata, and the per-package data
 * limit of the subscription page. Stripe's replies are inputs.
 */
module Payments {
  import opened Wrappers
  import Packages
  import StudentVerification

  /** One PRICES entry; the optional keys are None where the entry omits them. */
  datatype PriceInfo = PriceInfo(
    priceId: Option<string>,
    amount: nat,
    currency: string,
    displayPrice: string,
    discountPercent: Option<nat>,
    originalAmount: Option<nat>)

  /** PRICES; amounts are in cents. */
  const Prices: map<string, PriceInfo> := map[
    "free" := PriceInfo(None, 0, "usd", "$0", None, None),
    "pro" := PriceInfo(Some("price_1Hh1XXX"), 900, "usd", "$9", None, None),
    "pro_student" := PriceInfo(Some("price_1Hh1StudentXXX"), 499, "usd", "$4.99", Some(45), Some(900)),
    "business" := PriceInfo(Some("price_1Hh2XXX"), 2900, "usd", "$29", None, None),
    "business_student" := PriceInfo(Some("price_1Hh2StudentXXX"), 1499, "usd", "$14.99", Some(48), Some(2900))
  ]

  const StudentCoupon := "STUDENT2024"

  /** Python's str() of a bool. */
  function PyBool(b: bool): string
  {
    if b then "True" else "False"
  }

  /** The price key a checkout looks up: the student variant for a student buying pro or business. */
  function CheckoutKey(package: string, isStudent: bool): string
  {
    if isStudent && package in ["pro", "business"] then package + "_student" else package
  }

  /** `not price_info or not price_info.get('price_id')`: no entry, or no non-empty price id. */
  predicate Purchasable(key: string)
  {
    key in Prices && Prices[key].priceId.Some? && Prices[key].priceId.value != ""
  }

  /** The metadata of the checkout session. */
  datatype CheckoutMetadata = CheckoutMetadata(package: string, userEmail: string, isStudent: string, discountPercent: nat)

  /** What create_checkout_session hands to Stripe. */
  datatype CheckoutRequest = CheckoutRequest(
    priceId: string,
    customerEmail: string,
    metadata: CheckoutMetadata,
    subscriptionMetadata: map<string, string>,
    coupons: seq<string>)

  /** create_checkout_session up to the Stripe call; None where the source returns None before it. */
  function CreateCheckout(stripeAvailable: bool, package: string, userEmail: string, isStudent: bool): Option<CheckoutRequest>
  {
    if !stripeAvailable then None
    else
      var key := CheckoutKey(package, isStudent);
      if !Purchasable(key) then None
      else
        var info := Prices[key];
        var discount := if info.discountPercent.Some? then info.discountPercent.value else 0;
        Some(CheckoutRequest(
          info.priceId.value,
          userEmail,
          CheckoutMetadata(package, userEmail, PyBool(isStudent), discount),
          map["package" := package, "is_student" := PyBool(isStudent)],
          if isStudent then [StudentCoupon] else []))
  }

  /** What Stripe answers to verify_subscription's two list calls. */
  datatype StripeLookup =
    | StripeUnavailable
    | LookupFailed
    | NoCustomer
    | ActiveSubscriptions(metadata: seq<map<string, string>>)

  /** dict.get(key, default) on string metadata. */
  function Get(m: map<string, string>, key: string, default: string): string
  {
    if key in m then m[key] else default
  }

  /** verify_subscription: the package of the first active subscription, with the student suffix re-applied. */
  function VerifySubscription(lookup: StripeLookup): string
  {
    match lookup
    case StripeUnavailable => "free"
    case LookupFailed => "free"
    case NoCustomer => "free"
    case ActiveSubscriptions(subs) =>
      if subs == [] then "free"
      else
        var package := Get(subs[0], "package", "free");
        var isStudent := Get(subs[0], "is_student", "False") == "True";
        if isStudent && (package == "pro" || package == "business") then package + "_student" else package
  }

  /** The limit_mb lookup of the subscription page, with default 1. */
  function LimitMb(currentPackage: string): nat
  {
    var limits := map["free" := 1, "pro" := 25, "pro_student" := 25, "business" := 200, "business_student" := 200];
    if currentPackage in limits then limits[currentPackage] else 1
  }

  /** The key is the student variant exactly for a student buying pro or business; otherwise it is the package. */
  lemma CheckoutKeySpec(package: string, isStudent: bool)
    ensures CheckoutKey(package, isStudent) == package + "_student" <==> isStudent && (package == "pro" || package == "business")
    ensures !(isStudent && (package == "pro" || package == "business")) ==> CheckoutKey(package, isStudent) == package
  {
  }

  /** Exactly the four paid keys have a price id. */
  lemma PurchasableKeys(key: string)
    ensures Purchasable(key) <==> key in {"pro", "pro_student", "business", "business_student"}
  {
  }

  /**
   * A checkout request is made exactly when Stripe is available and the key
   * has a price id; in particular never for free and never for a name outside
   * the table.
   */
  lemma CheckoutRefusals(stripeAvailable: bool, package: string, userEmail: string, isStudent: bool)
    ensures CreateCheckout(stripeAvailable, package, userEmail, isStudent).Some? <==>
      stripeAvailable && Purchasable(CheckoutKey(package, isStudent))
    ensures CreateCheckout(stripeAvailable, "free", userEmail, isStudent).None?
    ensures package !in Prices ==> CreateCheckout(stripeAvailable, package, userEmail, isStudent).None?
  {
    if package !in Prices {
      CheckoutKeySpec(package, isStudent);
    }
  }

  /**
   * A request charges the key's price id; the coupon is attached exactly for
   * a student; the metadata discount is the entry's, or 0 where it has none;
   * the metadata record the package as asked, not the key.
   */
  lemma CheckoutContents(package: string, userEmail: string, isStudent: bool)
    requires CreateCheckout(true, package, userEmail, isStudent).Some?
    ensures var r := CreateCheckout(true, package, userEmail, isStudent).value;
      var key := CheckoutKey(package, isStudent);
      && Some(r.priceId) == Prices[key].priceId
      && (r.coupons == [StudentCoupon] <==> isStudent)
      && (!isStudent ==> r.coupons == [])
      && (Prices[key].discountPercent.None? ==> r.metadata.discountPercent == 0)
      && (Prices[key].discountPercent.Some? ==> r.metadata.discountPercent == Prices[key].discountPercent.value)
      && r.metadata.package == package && r.customerEmail == userEmail
      && r.metadata.isStudent == r.subscriptionMetadata["is_student"]
  {
  }

  /** A student buying pro or business gets the 45 or 48 percent entry; everyone else on those packages gets 0. */
  lemma CheckoutDiscounts(userEmail: string)
    ensures CreateCheckout(true, "pro", userEmail, true).Some? && CreateCheckout(true, "business", userEmail, true).Some?
    ensures CreateCheckout(true, "pro", userEmail, true).value.metadata.discountPercent == 45
    ensures CreateCheckout(true, "business", userEmail, true).value.metadata.discountPercent == 48
    ensures CreateCheckout(true, "pro", userEmail, false).value.metadata.discountPercent == 0
    ensures CreateCheckout(true, "business", userEmail, false).value.metadata.discountPercent == 0
  {
    assert CheckoutKey("pro", true) == "pro_student";
    assert CheckoutKey("business", true) == "business_student";
  }

  /**
   * Round trip: the subscription metadata a checkout writes, read back by
   * verify_subscription as the first active subscription, give the key the
   * checkout charged.
   */
  lemma CheckoutVerifyRoundTrip(package: string, userEmail: string, isStudent: bool, later: seq<map<string, string>>)
    requires CreateCheckout(true, package, userEmail, isStudent).Some?
    ensures var r := CreateCheckout(true, package, userEmail, isStudent).value;
      VerifySubscription(ActiveSubscriptions([r.subscriptionMetadata] + later)) == CheckoutKey(package, isStudent)
  {
    var r := CreateCheckout(true, package, userEmail, isStudent).value;
    var md := ([r.subscriptionMetadata] + later)[0];
    assert md == map["package" := package, "is_student" := PyBool(isStudent)];
    assert Get(md, "package", "free") == package;
    assert Get(md, "is_student", "False") == PyBool(isStudent);
  }

  /** Without Stripe, a customer or an active subscription, verify_subscription answers free. */
  lemma VerifyDefaults(lookup: StripeLookup)
    requires !lookup.ActiveSubscriptions? || lookup.metadata == []
    ensures VerifySubscription(lookup) == "free"
  {
  }

  /** A subscription without package metadata counts as free, whatever its is_student; one without is_student as a non-student. */
  lemma VerifyMissingMetadata(md: map<string, string>)
    ensures "package" !in md ==> VerifySubscription(ActiveSubscriptions([md])) == "free"
    ensures "is_student" !in md ==> VerifySubscription(ActiveSubscriptions([md])) == Get(md, "package", "free")
  {
  }

  /** Each student entry costs less than its base entry and records the base amount as its original amount. */
  lemma StudentPrices(base: string)
    requires base == "pro" || base == "business"
    ensures base + "_student" in Prices && base in Prices
    ensures Prices[base + "_student"].amount < Prices[base].amount
    ensures Prices[base + "_student"].originalAmount == Some(Prices[base].amount)
    ensures Prices[base + "_student"].discountPercent.Some? && Prices[base].discountPercent.None?
  {
    if base == "pro" {
      assert base + "_student" == "pro_student";
    } else {
      assert base + "_student" == "business_student";
    }
  }

  /** The student entries agree with STUDENT_DISCOUNTS: the same prices in cents and the same percentages. */
  lemma StudentPricesAgree(base: string)
    requires base == "pro" || base == "business"
    ensures base + "_student" in Prices && StudentVerification.GetStudentPrice(base).Some?
    ensures var d := StudentVerification.GetStudentPrice(base).value;
      var e := Prices[base + "_student"];
      && e.amount as real == d.studentPrice * 100.0
      && e.originalAmount == Some((d.originalPrice * 100.0).Floor)
      && e.discountPercent == Some(d.discountPercent)
  {
    StudentPrices(base);
  }

  /** A student variant has its base tier's limit, the three tiers agree with PACKAGE_INFO, and anything else gets 1 MB. */
  lemma LimitMbSpec(p: string)
    ensures LimitMb("pro_student") == LimitMb("pro") && LimitMb("business_student") == LimitMb("business")
    ensures p in Packages.PackageInfoTable ==> LimitMb(p) == Packages.PackageInfoTable[p].limitMb
    ensures p !in {"free", "pro", "pro_student", "business", "business_student"} ==> LimitMb(p) == 1
  {
  }
}
