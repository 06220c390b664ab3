/**
 * `HashCash::Stamp`: a version 1 hashcash stamp
 * `version:bits:date:resource:ext:rand:counter`, built either by parsing
 * its text or by minting (searching for the first counter whose SHA-1
 * digest starts with `bits` zero bits), and checked by `verify`.
 *
 * SHA-1 is the parameter `sha1`, the clock reading `Time.now` is the
 * parameter `clock` (a calendar time, when minting) or `now` (Unix
 * seconds, when verifying), and the random nonce is the parameter `nonce`.
 */
module HashCash {
  import opened Wrappers
  import opened RubyText
  import opened Calendar
  import opened Difficulty

  const StampVersion: int := 1
  const DefaultBits: int := 20
  /** How far, in seconds, the stamp's date may lie from now, either way: two days. */
  const MaxSkew: int := 2 * 24 * 60 * 60

  /** The exceptions the constructor and `verify` raise. */
  datatype Error =
    | MissingArguments                          // ArgumentError: neither :stamp nor :resource
    | IncorrectVersion(version: Option<string>) // ArgumentError: version field's to_i is not 1
    | MissingDate                               // NoMethodError: parse_date called on nil
    | DateOutOfRange                            // ArgumentError raised by Time.utc
    | ResourcesNotStringOrArray                 // ArgumentError from verify
    | ResourceMismatch                          // RuntimeError: resource not in the list
    | Expired                                   // RuntimeError: date too far from now
    | InsufficientWork                          // RuntimeError: not enough zero bits

  /** The constructor's option hash; an absent key (or a `nil` hash) is `None`. */
  datatype Args = Args(stamp: Option<string>, resource: Option<string>, bits: Option<int>, date: Option<DateTime>)

  /** `verify`'s first argument: one String, an Array of them, or anything else. */
  datatype Resources = Single(name: string) | List(names: seq<string>) | NeitherStringNorArray

  /** The instance variables a constructed stamp holds. */
  datatype StampFields = StampFields(
    version: Option<string>,
    bits: int,
    date: DateTime,
    resource: Option<string>,
    rand: Option<string>,
    counter: Option<string>,
    text: string)

  // ---- Parsing (the :stamp branch) ----

  /**
   * The `:stamp` branch of the constructor: split on `:`, read the bits
   * leniently, insist that the version reads as 1, decode the date. Fields
   * the split did not produce are `nil`; extra fields are ignored.
   */
  function ParseStamp(text: string): (r: Result<StampFields, Error>)
    ensures r.Success? ==> r.value.text == text && ValidDate(r.value.date)
    ensures r.Success? ==> ToIOpt(r.value.version) == StampVersion && r.value.bits == ToIOpt(Field(Split(text), 1))
    ensures r.Success? ==> r.value.version == Field(Split(text), 0)
    ensures r.Failure? && r.error.IncorrectVersion? ==> r.error.version == Field(Split(text), 0)
    ensures ToIOpt(Field(Split(text), 0)) != StampVersion <==> r.Failure? && r.error.IncorrectVersion?
    ensures r.Failure? ==> r.error.IncorrectVersion? || r.error == MissingDate || r.error == DateOutOfRange
    ensures r.Success? <==>
      ToIOpt(Field(Split(text), 0)) == StampVersion && |Split(text)| >= 3 && ParseDate(Split(text)[2]).Some?
    ensures r == Failure(MissingDate) <==> ToIOpt(Field(Split(text), 0)) == StampVersion && |Split(text)| < 3
    ensures r.Success? ==>
      && Some(r.value.date) == ParseDate(Split(text)[2])
      && r.value.resource == Field(Split(text), 3)
      && r.value.rand == Field(Split(text), 5)
      && r.value.counter == Field(Split(text), 6)
  {
    var fields := Split(text);
    var bits := ToIOpt(Field(fields, 1));
    if ToIOpt(Field(fields, 0)) != StampVersion then Failure(IncorrectVersion(Field(fields, 0)))
    else if |fields| < 3 then Failure(MissingDate)
    else
      match ParseDate(fields[2])
      case None => Failure(DateOutOfRange)
      case Some(date) =>
        Success(StampFields(Field(fields, 0), bits, date, Field(fields, 3), Field(fields, 5), Field(fields, 6), text))
  }

  // ---- Minting (the :resource branch) ----

  /** `"1:bits:date:resource::rand:"`, the part of a minted stamp before the counter. */
  function MintPrefix(bits: int, date: DateTime, resource: string, nonce: string): string
    requires ValidDate(date)
  {
    Decimal(StampVersion) + ":" + Decimal(bits) + ":" + DateToStr(date) + ":" + resource + "::" + nonce + ":"
  }

  /** `args[:bits] || 20`. */
  function MintBits(args: Args): int {
    args.bits.GetOr(DefaultBits)
  }

  /** `args[:date] || Time.now`. */
  function MintDate(args: Args, clock: DateTime): DateTime {
    args.date.GetOr(clock)
  }

  /** The candidate text for counter `c` passes the mint-side test. */
  predicate Passes(prefix: string, bits: int, sha1: Hash, c: nat) {
    MintTest(sha1(prefix + Base36(c)), bits)
  }

  /** Some counter makes the candidate pass, so the search loop ends. */
  ghost predicate Solvable(prefix: string, bits: int, sha1: Hash) {
    exists c: nat :: Passes(prefix, bits, sha1, c)
  }

  /** `c` is the least counter whose candidate text passes the mint-side test. */
  ghost predicate IsFirstSolution(prefix: string, bits: int, sha1: Hash, c: nat) {
    Passes(prefix, bits, sha1, c) && NoSolutionBelow(prefix, bits, sha1, c)
  }

  /** No counter below `c` makes the candidate pass. */
  ghost predicate NoSolutionBelow(prefix: string, bits: int, sha1: Hash, c: nat) {
    forall k: nat :: k < c ==> !Passes(prefix, bits, sha1, k)
  }

  /**
   * The mint loop: try `prefix + ctr.to_s(36)` for ctr = 0, 1, 2, ... and
   * keep the first candidate whose digest passes. Returns the stamp text
   * and the counter it ends in.
   */
  method Search(prefix: string, bits: int, sha1: Hash) returns (text: string, counter: nat)
    requires Solvable(prefix, bits, sha1)
    ensures text == prefix + Base36(counter)
    ensures IsFirstSolution(prefix, bits, sha1, counter)
    ensures bits <= 0 ==> counter == 0
  {
    ghost var goal: nat :| Passes(prefix, bits, sha1, goal);
    var ctr: nat := 0;
    var stampString: Option<string> := None;
    counter := 0;
    while stampString.None?
      invariant stampString.None? ==> ctr <= goal && NoSolutionBelow(prefix, bits, sha1, ctr)
      invariant stampString.Some? ==> counter < ctr <= goal + 1 && stampString.value == prefix + Base36(counter)
      invariant stampString.Some? ==> IsFirstSolution(prefix, bits, sha1, counter)
      decreases goal + 1 - ctr
    {
      var testStamp := prefix + Base36(ctr);
      if MintTest(sha1(testStamp), bits) {
        stampString, counter := Some(testStamp), ctr;
      } else {
        assert ctr != goal;
      }
      ctr := ctr + 1;
    }
    text := stampString.value;
    if bits <= 0 {
      ZeroBitsAlwaysPass(sha1(prefix + Base36(0)), bits);
      assert Passes(prefix, bits, sha1, 0);
    }
  }

  /** What a stamp minted for `resource` at `bits` and `date` holds. */
  ghost predicate MintedFrom(f: StampFields, resource: string, bits: int, date: DateTime, nonce: string, sha1: Hash)
    requires ValidDate(date)
  {
    && f.version == None && f.bits == bits && f.date == date && f.resource == Some(resource)
    && f.rand == None && f.counter == None
    && exists c: nat ::
         && f.text == MintPrefix(bits, date, resource, nonce) + Base36(c)
         && IsFirstSolution(MintPrefix(bits, date, resource, nonce), bits, sha1, c)
  }

  // ---- Verification ----

  /** The resource list `verify` normalises its argument to. */
  function ResourceList(resources: Resources): (names: seq<string>)
    requires !resources.NeitherStringNorArray?
    ensures resources.Single? ==> names == [resources.name]
    ensures resources.List? ==> names == resources.names
  {
    if resources.Single? then [resources.name] else resources.names
  }

  /** The stamp's resource is one of those `verify` was given. */
  predicate Admits(resources: Resources, resource: Option<string>) {
    !resources.NeitherStringNorArray? && resource.Some? && resource.value in ResourceList(resources)
  }

  class Stamp {
    var version: Option<string>
    var bits: int
    var date: DateTime
    var resource: Option<string>
    var stampString: string
    var rand: Option<string>
    var counter: Option<string>

    ghost predicate Valid()
      reads this
    {
      ValidDate(date)
    }

    function Fields(): StampFields
      reads this
    {
      StampFields(version, bits, date, resource, rand, counter, stampString)
    }

    constructor (f: StampFields)
      requires ValidDate(f.date)
      ensures Valid() && Fields() == f
    {
      version, bits, date, resource := f.version, f.bits, f.date, f.resource;
      stampString, rand, counter := f.text, f.rand, f.counter;
    }

    /**
     * `Stamp.new(args)`: parse `args.stamp` when given, otherwise mint a
     * stamp for `args.resource`, otherwise raise.
     */
    static method New(args: Args, clock: DateTime, nonce: string, sha1: Hash) returns (r: Result<Stamp, Error>)
      requires ValidDate(clock)
      requires args.date.Some? ==> ValidDate(args.date.value)
      requires args.stamp.None? && args.resource.Some? ==>
        Solvable(MintPrefix(MintBits(args), MintDate(args, clock), args.resource.value, nonce), MintBits(args), sha1)
      ensures args.stamp.None? && args.resource.None? ==> r == Failure(MissingArguments)
      ensures args.stamp.Some? && ParseStamp(args.stamp.value).Failure? ==>
        r == Failure(ParseStamp(args.stamp.value).error)
      ensures args.stamp.Some? && ParseStamp(args.stamp.value).Success? ==>
        r.Success? && fresh(r.value) && r.value.Valid() && r.value.Fields() == ParseStamp(args.stamp.value).value
      ensures args.stamp.None? && args.resource.Some? ==>
        && r.Success? && fresh(r.value) && r.value.Valid()
        && MintedFrom(r.value.Fields(), args.resource.value, MintBits(args), MintDate(args, clock), nonce, sha1)
    {
      if args.stamp.None? && args.resource.None? {
        return Failure(MissingArguments);
      }
      if args.stamp.Some? {
        var parsed := ParseStamp(args.stamp.value);
        if parsed.Failure? {
          return Failure(parsed.error);
        }
        var s := new Stamp(parsed.value);
        return Success(s);
      }
      var resource := args.resource.value;
      var bits := MintBits(args);
      var date := MintDate(args, clock);
      var prefix := MintPrefix(bits, date, resource, nonce);
      var text, c := Search(prefix, bits, sha1);
      var s := new Stamp(StampFields(None, bits, date, Some(resource), None, None, text));
      return Success(s);
    }

    /** `to_s`: the stamp's wire text. */
    function ToS(): (r: string)
      reads this
      ensures r == Fields().text
    {
      stampString
    }

    /**
     * `verify(resources, bits)`: the resource check, then the two-day time
     * window, then the difficulty check on the digest of the stamp text.
     * The first failing check decides the error.
     */
    function Verify(resources: Resources, requiredBits: int, now: int, sha1: Hash): (r: Outcome<Error>)
      requires Valid()
      reads this
      ensures r == Pass <==>
        && Admits(resources, resource)
        && -MaxSkew <= now - ToSeconds(date) <= MaxSkew
        && ZeroPrefix(sha1(stampString), requiredBits)
      ensures r == Fail(ResourcesNotStringOrArray) <==> resources.NeitherStringNorArray?
      ensures r == Fail(ResourceMismatch) <==> !resources.NeitherStringNorArray? && !Admits(resources, resource)
      ensures r == Fail(Expired) <==>
        Admits(resources, resource) && !(-MaxSkew <= now - ToSeconds(date) <= MaxSkew)
      ensures r == Fail(InsufficientWork) <==>
        && Admits(resources, resource)
        && -MaxSkew <= now - ToSeconds(date) <= MaxSkew
        && !ZeroPrefix(sha1(stampString), requiredBits)
    {
      VerifyTestZeroPrefix(sha1(stampString), requiredBits);
      if resources.NeitherStringNorArray? then Fail(ResourcesNotStringOrArray)
      else if !Admits(resources, resource) then Fail(ResourceMismatch)
      else if now - ToSeconds(date) > MaxSkew || ToSeconds(date) - now > MaxSkew then Fail(Expired)
      else if !VerifyTest(sha1(stampString), requiredBits) then Fail(InsufficientWork)
      else Pass
    }
  }

  // ---- Properties ----

  /** A minted stamp's text is the colon-join of its seven fields. */
  lemma MintedTextFields(bits: int, date: DateTime, resource: string, nonce: string, c: nat)
    requires ValidDate(date)
    ensures MintPrefix(bits, date, resource, nonce) + Base36(c)
         == Join([Decimal(StampVersion), Decimal(bits), DateToStr(date), resource, "", nonce, Base36(c)])
  {
    var f0, f1, f2, b := Decimal(StampVersion), Decimal(bits), DateToStr(date), Base36(c);
    var t3 := f0 + ":" + f1 + ":" + f2 + ":" + resource;
    assert [f0] + [f1] == [f0, f1];
    JoinSnoc([f0], f1);
    assert [f0, f1] + [f2] == [f0, f1, f2];
    JoinSnoc([f0, f1], f2);
    assert [f0, f1, f2] + [resource] == [f0, f1, f2, resource];
    JoinSnoc([f0, f1, f2], resource);
    assert [f0, f1, f2, resource] + [""] == [f0, f1, f2, resource, ""];
    JoinSnoc([f0, f1, f2, resource], "");
    assert t3 + ":" + "" == t3 + ":";
    assert [f0, f1, f2, resource, ""] + [nonce] == [f0, f1, f2, resource, "", nonce];
    JoinSnoc([f0, f1, f2, resource, ""], nonce);
    assert t3 + ":" + ":" + nonce == t3 + "::" + nonce;
    assert [f0, f1, f2, resource, "", nonce] + [b] == [f0, f1, f2, resource, "", nonce, b];
    JoinSnoc([f0, f1, f2, resource, "", nonce], b);
  }

  /**
   * Seven colon-free fields, the last one non-empty, joined by colons:
   * parsing reads the version, bits, resource, nonce and counter straight
   * from them once the version reads as 1 and the date field decodes.
   */
  lemma ParseStampOfJoin(fs: seq<string>, date: DateTime)
    requires |fs| == 7 && fs[6] != ""
    requires forall i :: 0 <= i < |fs| ==> ':' !in fs[i]
    requires ToI(fs[0]) == StampVersion && ParseDate(fs[2]) == Some(date)
    ensures ParseStamp(Join(fs))
         == Success(StampFields(Some(fs[0]), ToI(fs[1]), date, Some(fs[3]), Some(fs[5]), Some(fs[6]), Join(fs)))
  {
    SplitJoin(fs);
  }

  /**
   * Parsing a minted stamp gives back its bits, resource, nonce and
   * counter, and its date with the century taken as 2000; the version
   * field reads "1" and the extension field is empty.
   */
  lemma MintedTextParses(bits: int, date: DateTime, resource: string, nonce: string, c: nat)
    requires ValidDate(date) && ':' !in resource && ':' !in nonce
    ensures var text := MintPrefix(bits, date, resource, nonce) + Base36(c);
      ParseStamp(text) == Success(StampFields(Some("1"), bits, date.(year := 2000 + date.year % 100),
                                              Some(resource), Some(nonce), Some(Base36(c)), text))
  {
    var fs := [Decimal(StampVersion), Decimal(bits), DateToStr(date), resource, "", nonce, Base36(c)];
    var u := date.(year := 2000 + date.year % 100);
    MintedTextFields(bits, date, resource, nonce, c);
    assert ':' !in Base36(c) by {
      forall i | 0 <= i < |Base36(c)| ensures Base36(c)[i] != ':' {
        assert IsBase36Digit(Base36(c)[i]);
      }
    }
    assert forall i :: 0 <= i < |fs| ==> ':' !in fs[i];
    DecimalRoundTrip(StampVersion);
    assert ToI(fs[0]) == StampVersion && fs[0] == "1";
    DecimalRoundTrip(bits);
    assert ToI(fs[1]) == bits;
    DateRoundTrip(date);
    assert ParseDate(fs[2]) == Some(u);
    ParseStampOfJoin(fs, u);
  }

  /** For dates in 2000-2099 parsing a minted stamp gives back the minting date itself. */
  lemma MintedTextParsesThisCentury(bits: int, date: DateTime, resource: string, nonce: string, c: nat)
    requires ValidDate(date) && 2000 <= date.year <= 2099 && ':' !in resource && ':' !in nonce
    ensures var text := MintPrefix(bits, date, resource, nonce) + Base36(c);
      ParseStamp(text) == Success(StampFields(Some("1"), bits, date, Some(resource), Some(nonce), Some(Base36(c)), text))
  {
    ThisCenturyYear(date.year);
    assert date.(year := 2000 + date.year % 100) == date;
    MintedTextParses(bits, date, resource, nonce, c);
  }

  /**
   * The example stamp from hashcash.org, `1:20:060408:adam@cypherspace.org::1QTjaYd7niiQA/sc:ePa`,
   * written as the colon-join of its seven fields.
   */
  const WikipediaFields: seq<string> := ["1", "20", "060408", "adam@cypherspace.org", "", "1QTjaYd7niiQA/sc", "ePa"]
  const WikipediaStamp: string := Join(WikipediaFields)

  /** What parsing the example stamp should give: version 1, 20 bits, 2006-04-08, adam@cypherspace.org. */
  const WikipediaParsed: StampFields := StampFields(
    Some("1"), 20, DateTime(2006, 4, 8, 0, 0, 0), Some("adam@cypherspace.org"),
    Some("1QTjaYd7niiQA/sc"), Some("ePa"), WikipediaStamp)

  /** The example stamp from hashcash.org parses to the expected fields. */
  lemma ParseWikipediaStamp()
    ensures ParseStamp(WikipediaStamp) == Success(WikipediaParsed)
  {
    var fs := WikipediaFields;
    assert ':' !in fs[0] && ':' !in fs[1] && ':' !in fs[2] && ':' !in fs[3];
    assert ':' !in fs[4] && ':' !in fs[5] && ':' !in fs[6];
    assert forall i :: 0 <= i < |fs| ==> ':' !in fs[i];
    assert fs[0] == Decimal(1) && fs[1] == Decimal(20);
    DecimalRoundTrip(1);
    DecimalRoundTrip(20);
    assert ToI(fs[0]) == StampVersion;
    ParseDateExample();
    assert ParseDate(fs[2]) == Some(DateTime(2006, 4, 8, 0, 0, 0));
    ParseStampOfJoin(fs, DateTime(2006, 4, 8, 0, 0, 0));
  }

  /** Any stamp text whose version field is `2` is rejected, whatever follows it. */
  lemma VersionTwoRejected(rest: string)
    ensures ParseStamp("2:" + rest) == Failure(IncorrectVersion(Some("2")))
  {
    assert "2:" + rest == "2" + ":" + rest;
    SplitFirstField("2", rest);
    assert "2" == Decimal(2);
    DecimalRoundTrip(2);
  }

  /**
   * A freshly minted stamp passes `verify` for its own resource at its own
   * bits and at every lower requirement, while its date is within two days.
   */
  lemma MintedStampVerifies(s: Stamp, resource: string, now: int, sha1: Hash)
    requires s.Valid() && s.resource == Some(resource)
    requires MintTest(sha1(s.stampString), s.bits)
    requires -MaxSkew <= now - ToSeconds(s.date) <= MaxSkew
    ensures forall m :: m <= s.bits ==> s.Verify(Single(resource), m, now, sha1) == Pass
  {
    MintTestZeroPrefix(sha1(s.stampString), s.bits);
  }

  /**
   * A stamp minted for `resource` at `bits` (as `New` builds it) verifies
   * for that resource at those bits while its date is within two days.
   */
  lemma MintedFromVerifies(s: Stamp, resource: string, bits: int, date: DateTime, nonce: string, now: int, sha1: Hash)
    requires s.Valid() && ValidDate(date) && MintedFrom(s.Fields(), resource, bits, date, nonce, sha1)
    requires -MaxSkew <= now - ToSeconds(s.date) <= MaxSkew
    ensures s.Verify(Single(resource), bits, now, sha1) == Pass
  {
    var c: nat :| s.stampString == MintPrefix(bits, date, resource, nonce) + Base36(c)
                && IsFirstSolution(MintPrefix(bits, date, resource, nonce), bits, sha1, c);
    MintedStampVerifies(s, resource, now, sha1);
  }

  /** Verification at a difficulty implies verification at every lower one. */
  lemma VerifyMonotone(s: Stamp, resources: Resources, n: int, m: int, now: int, sha1: Hash)
    requires s.Valid() && m <= n
    requires s.Verify(resources, n, now, sha1) == Pass
    ensures s.Verify(resources, m, now, sha1) == Pass
  {
  }

  /** A stamp is bound to its resource: checked against any other single resource it fails. */
  lemma ResourceBinding(s: Stamp, other: string, bits: int, now: int, sha1: Hash)
    requires s.Valid() && s.resource.Some? && s.resource.value != other
    ensures s.Verify(Single(other), bits, now, sha1) == Fail(ResourceMismatch)
  {
  }

  /**
   * The time window is closed: a date exactly two days away either way is
   * accepted, one second more is `Expired`.
   */
  lemma ExpiryBoundary(s: Stamp, resource: string, bits: int, sha1: Hash)
    requires s.Valid() && s.resource == Some(resource) && ZeroPrefix(sha1(s.stampString), bits)
    ensures s.Verify(Single(resource), bits, ToSeconds(s.date) + MaxSkew, sha1) == Pass
    ensures s.Verify(Single(resource), bits, ToSeconds(s.date) - MaxSkew, sha1) == Pass
    ensures s.Verify(Single(resource), bits, ToSeconds(s.date) + MaxSkew + 1, sha1) == Fail(Expired)
    ensures s.Verify(Single(resource), bits, ToSeconds(s.date) - MaxSkew - 1, sha1) == Fail(Expired)
  {
  }

  /**
   * The hashcash.org example, parsed (`ParseWikipediaStamp`): checked against another resource it
   * fails with `ResourceMismatch`, and for its own resource at any time
   * after 2006-04-10 00:00:00 UTC it fails with `Expired`, whatever its digest.
   */
  lemma WikipediaStampVerifyErrors(s: Stamp, now: int, sha1: Hash)
    requires s.Fields() == WikipediaParsed
    ensures s.Valid()
    ensures s.Verify(Single("foo@example.org"), DefaultBits, now, sha1) == Fail(ResourceMismatch)
    ensures now > 1144627200 ==> s.Verify(Single("adam@cypherspace.org"), DefaultBits, now, sha1) == Fail(Expired)
  {
    assert s.date == DateTime(2006, 4, 8, 0, 0, 0) && s.resource == Some("adam@cypherspace.org");
    ExampleDateSeconds();
  }
}
