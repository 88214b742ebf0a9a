/** The company settings: the update command's validator, the overwrite of the stored company
    details, and the replacement of the logo's file name and type when a photo is uploaded. */
module CompanySettings {
  import opened Wrappers
  import opened Text
  import opened Validation
  import opened Domain

  /** An uploaded file: its client-side file name, its declared content type and its size in
      bytes. */
  datatype Photo = Photo(fileName: string, contentType: string, length: nat)

  datatype UpdateCompanyInfoCommand = UpdateCompanyInfoCommand(
    name: string,
    phone: string,
    country: string,
    state: string,
    city: string,
    zip: string,
    line1: string,
    line2: Option<string>,
    photo: Option<Photo>)

  // ----- validator -----

  /** The largest accepted photo: 2 MiB. */
  const MaxPhotoLength := 2097152

  /** `ValidLength`: no photo, or one of at most 2 MiB. */
  predicate ValidLength(photo: Option<Photo>)
  {
    photo.None? || photo.value.length <= MaxPhotoLength
  }

  /** `ValidContentType`: no photo, or a JPEG or PNG one. */
  predicate ValidContentType(photo: Option<Photo>)
  {
    photo.None? || photo.value.contentType == "image/jpeg" || photo.value.contentType == "image/png"
  }

  /** `NotEmpty().MaximumLength(max)` in one chain; both rules run. */
  function FilledChecks(property: string, value: Option<string>, max: nat): (checks: seq<Check>)
    ensures Failures(checks) == [] <==> value.Some? && !IsBlank(value.value) && |value.value| <= max
  {
    var checks := [Check(property, NotEmpty, value), Check(property, MaximumLength(max), value)];
    assert Passes(checks[0]) && Passes(checks[1]) <==> forall i :: 0 <= i < |checks| ==> Passes(checks[i]);
    checks
  }

  /** The string rules: Name, Country, State, City and Line1 not blank and at most 50 characters,
      Phone not blank and at most 20, Line2 at most 50 when given; Zip has no rule. */
  function CompanyInfoChecks(c: UpdateCompanyInfoCommand): seq<Check>
  {
    FilledChecks("Name", Some(c.name), 50) + FilledChecks("Phone", Some(c.phone), 20)
    + FilledChecks("Country", Some(c.country), 50) + FilledChecks("State", Some(c.state), 50)
    + FilledChecks("City", Some(c.city), 50) + FilledChecks("Line1", Some(c.line1), 50)
    + [Check("Line2", MaximumLength(50), c.line2)]
  }

  /** The validator's verdict: no string rule fails and both photo rules hold. */
  predicate Accepted(c: UpdateCompanyInfoCommand)
  {
    Failures(CompanyInfoChecks(c)) == [] && ValidLength(c.photo) && ValidContentType(c.photo)
  }

  /** A command is accepted exactly when the required fields are non-blank and within their
      limits, Line2 is absent or at most 50 characters, and the photo, when there is one, is a
      JPEG or PNG of at most 2 MiB. */
  lemma CompanyInfoValidatorAccepts(c: UpdateCompanyInfoCommand)
    ensures Accepted(c) <==>
      && !IsBlank(c.name) && |c.name| <= 50
      && !IsBlank(c.phone) && |c.phone| <= 20
      && !IsBlank(c.country) && |c.country| <= 50
      && !IsBlank(c.state) && |c.state| <= 50
      && !IsBlank(c.city) && |c.city| <= 50
      && !IsBlank(c.line1) && |c.line1| <= 50
      && (c.line2.None? || |c.line2.value| <= 50)
      && (c.photo.None? || (c.photo.value.length <= 2097152 && (c.photo.value.contentType == "image/jpeg" || c.photo.value.contentType == "image/png")))
  {
    assert Failures(CompanyInfoChecks(c)) == [] <==>
      && !IsBlank(c.name) && |c.name| <= 50
      && !IsBlank(c.phone) && |c.phone| <= 20
      && !IsBlank(c.country) && |c.country| <= 50
      && !IsBlank(c.state) && |c.state| <= 50
      && !IsBlank(c.city) && |c.city| <= 50
      && !IsBlank(c.line1) && |c.line1| <= 50
      && (c.line2.None? || |c.line2.value| <= 50)
    by {
      var a := FilledChecks("Name", Some(c.name), 50);
      var b := FilledChecks("Phone", Some(c.phone), 20);
      var d := FilledChecks("Country", Some(c.country), 50);
      var e := FilledChecks("State", Some(c.state), 50);
      var f := FilledChecks("City", Some(c.city), 50);
      var g := FilledChecks("Line1", Some(c.line1), 50);
      var h := [Check("Line2", MaximumLength(50), c.line2)];
      assert Failures(h) == [] <==> Passes(h[0]);
      NoFailures7(a, b, d, e, f, g, h);
    }
  }

  // ----- the stored settings -----

  /** The company's details as values. */
  datatype InfoFields = InfoFields(
    name: string,
    phone: string,
    country: string,
    state: string,
    city: string,
    zip: string,
    line1: string,
    line2: string)

  /** `UpdateInfo` on values: every field is taken from the command, except that an absent Line2
      keeps the stored one. */
  function Overwritten(f: InfoFields, c: UpdateCompanyInfoCommand): (g: InfoFields)
    ensures c.line2.None? ==> g.line2 == f.line2
  {
    InfoFields(c.name, c.phone, c.country, c.state, c.city, c.zip, c.line1, if c.line2.Some? then c.line2.value else f.line2)
  }

  /** Of the stored details only Line2 can survive an update, and only when the command has none:
      two stored states become the same state, up to Line2, and entirely when Line2 is given. */
  lemma OverwriteForgetsStored(f1: InfoFields, f2: InfoFields, c: UpdateCompanyInfoCommand)
    ensures Overwritten(f1, c).(line2 := "") == Overwritten(f2, c).(line2 := "")
    ensures c.line2.Some? ==> Overwritten(f1, c) == Overwritten(f2, c)
  {
  }

  /** Applying the same command twice is the same as applying it once. */
  lemma OverwriteIdempotent(f: InfoFields, c: UpdateCompanyInfoCommand)
    ensures Overwritten(Overwritten(f, c), c) == Overwritten(f, c)
  {
  }

  /** The limits the validator enforces, on stored details. */
  predicate WithinLimits(f: InfoFields)
  {
    && |f.name| <= 50 && |f.phone| <= 20 && |f.country| <= 50 && |f.state| <= 50
    && |f.city| <= 50 && |f.line1| <= 50 && |f.line2| <= 50
  }

  /** An accepted command keeps the stored details within the validator's limits. */
  lemma AcceptedCommandKeepsLimits(f: InfoFields, c: UpdateCompanyInfoCommand)
    requires Accepted(c) && WithinLimits(f)
    ensures WithinLimits(Overwritten(f, c))
  {
    CompanyInfoValidatorAccepts(c);
  }

  class CompanyInfoLogo {
    var filename: Option<string>
    var fileType: Option<string>

    constructor (filename: Option<string>, fileType: Option<string>)
      ensures this.filename == filename && this.fileType == fileType
    {
      this.filename := filename;
      this.fileType := fileType;
    }
  }

  class CompanyInfo {
    const id: string
    var name: string
    var phone: string
    var country: string
    var state: string
    var city: string
    var zip: string
    var line1: string
    var line2: string
    var logo: CompanyInfoLogo?

    constructor (id: string, f: InfoFields, logo: CompanyInfoLogo?)
      ensures this.id == id && Fields() == f && this.logo == logo
    {
      this.id := id;
      name, phone, country, state, city := f.name, f.phone, f.country, f.state, f.city;
      zip, line1, line2 := f.zip, f.line1, f.line2;
      this.logo := logo;
    }

    function Fields(): InfoFields
      reads this
    {
      InfoFields(name, phone, country, state, city, zip, line1, line2)
    }

    /** `UpdateInfo`: overwrite the details from the command in place. */
    method UpdateInfo(c: UpdateCompanyInfoCommand)
      modifies this
      ensures Fields() == Overwritten(old(Fields()), c)
      ensures logo == old(logo)
    {
      name := c.name;
      phone := c.phone;
      country := c.country;
      state := c.state;
      city := c.city;
      zip := c.zip;
      line1 := c.line1;
      if c.line2.Some? {
        line2 := c.line2.value;
      }
    }
  }

  /** The handler: the stored details (absent when the settings row is missing) are overwritten,
      and an uploaded photo's file name and content type replace the logo's. A missing settings
      row, or a photo with no logo row, ends in a null dereference; in the second case the details
      have already been overwritten in memory but nothing is saved. */
  method HandleUpdateCompanyInfo(info: CompanyInfo?, c: UpdateCompanyInfoCommand) returns (r: Result<string, Failure>)
    modifies info, if info != null && info.logo != null then {info.logo} else {}
    ensures info == null ==> r == Failure(NullReferenceException)
    ensures info != null ==>
      && info.Fields() == Overwritten(old(info.Fields()), c)
      && info.logo == old(info.logo)
      && (r.Success? <==> c.photo.None? || info.logo != null)
      && (r.Success? ==> r.value == info.id)
      && (r.Failure? ==> r.error == NullReferenceException)
    ensures info != null && info.logo != null && c.photo.Some? ==>
      info.logo.filename == Some(c.photo.value.fileName) && info.logo.fileType == Some(c.photo.value.contentType)
    ensures info != null && info.logo != null && c.photo.None? ==>
      info.logo.filename == old(info.logo.filename) && info.logo.fileType == old(info.logo.fileType)
    ensures info != null && info.logo != null && c.photo.Some? && Accepted(c) ==>
      info.logo.fileType == Some("image/jpeg") || info.logo.fileType == Some("image/png")
  {
    if info == null {
      return Failure(NullReferenceException);
    }
    info.UpdateInfo(c);
    if c.photo.Some? {
      if info.logo == null {
        return Failure(NullReferenceException);
      }
      info.logo.filename := Some(c.photo.value.fileName);
      info.logo.fileType := Some(c.photo.value.contentType);
    }
    return Success(info.id);
  }
}
