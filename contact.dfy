/** Turning the decoded submission into a contact record (`extractContactData`). */
module Contact {
  import opened Wrappers
  import JsText
  import JsNumber
  import opened FormFields
  import opened FormData

  /** The type-specific part of a contact: which one is present depends on the
      raw registration type; an unrecognised type carries none. */
  datatype Details =
    | NoDetails
    | ParentDetails(schoolName: string, numberOfChildren: int)
    | PlayerDetails(playerClubName: string)
    | ClubDetails(clubName: string, clubSportType: string, clubNumberOfPlayers: int)

  datatype ContactRecord = ContactRecord(
    registrationType: string,
    contactName: string,
    firstName: string,
    lastName: string,
    email: string,
    phone: string,
    additionalNotes: string,
    submissionDate: string,
    status: string,
    details: Details)

  const NewStatus := "New"

  /** `formData[id]`: None stands for `undefined`. */
  function Lookup(fd: FlatFields, f: FormField): (r: Option<string>)
    ensures r.Some? <==> Id(f) in fd
    ensures r.Some? ==> r.value == fd[Id(f)]
  {
    if Id(f) in fd then Some(fd[Id(f)]) else None
  }

  /** `formData[id] || ""`: a missing value reads as the empty string. */
  function TextOr(fd: FlatFields, f: FormField): (r: string)
    ensures Lookup(fd, f).None? ==> r == ""
    ensures Lookup(fd, f).Some? ==> r == Lookup(fd, f).value
  {
    if Id(f) in fd then fd[Id(f)] else ""
  }

  /** JavaScript truthiness of `formData[id]`: present and not empty. For a
      string value, `!x` fails exactly when `x || ""` is non-empty. */
  predicate Truthy(fd: FlatFields, f: FormField)
    ensures Truthy(fd, f) <==> Lookup(fd, f).Some? && Lookup(fd, f).value != ""
    ensures Truthy(fd, f) <==> TextOr(fd, f) != ""
  {
    Id(f) in fd && fd[Id(f)] != ""
  }

  /** `s.charAt(0).toUpperCase() + s.slice(1).toLowerCase()`. */
  function Capitalize(s: string): (r: string)
    ensures |r| == |s|
  {
    if s == [] then [] else [JsText.UpperChar(s[0])] + JsText.ToLower(s[1..])
  }

  /** Capitalising is idempotent. */
  lemma CapitalizeIdempotent(s: string)
    ensures Capitalize(Capitalize(s)) == Capitalize(s)
  {
    if s != [] {
      var c := Capitalize(s);
      assert c[1..] == JsText.ToLower(s[1..]);
      JsText.ToLowerIdempotent(s[1..]);
    }
  }

  lemma CaseCharsAgree(x: char, y: char)
    ensures JsText.UpperChar(x) == JsText.UpperChar(y) <==> JsText.LowerChar(x) == JsText.LowerChar(y)
  {
  }

  /** Two registration types capitalise alike exactly when they are equal
      ignoring (ASCII) case. */
  lemma CapitalizeCaseInsensitive(a: string, b: string)
    ensures Capitalize(a) == Capitalize(b) <==> JsText.ToLower(a) == JsText.ToLower(b)
  {
    if |a| == |b| && a != [] {
      if Capitalize(a) == Capitalize(b) {
        SameCapitalizedSameLower(a, b);
      }
      if JsText.ToLower(a) == JsText.ToLower(b) {
        SameLowerSameCapitalized(a, b);
      }
    }
  }

  /** Character by character: the first is upper-cased, the rest lower-cased. */
  lemma CapitalizeAt(s: string, i: nat)
    requires i < |s|
    ensures Capitalize(s)[i] == if i == 0 then JsText.UpperChar(s[0]) else JsText.LowerChar(s[i])
  {
    var tail := JsText.ToLower(s[1..]);
    assert Capitalize(s) == [JsText.UpperChar(s[0])] + tail;
    if i > 0 {
      assert Capitalize(s)[i] == tail[i - 1];
      assert tail[i - 1] == JsText.LowerChar(s[1..][i - 1]);
    }
  }

  lemma SameCapitalizedSameLower(a: string, b: string)
    requires a != [] && Capitalize(a) == Capitalize(b)
    ensures JsText.ToLower(a) == JsText.ToLower(b)
  {
    var la, lb := JsText.ToLower(a), JsText.ToLower(b);
    CapitalizeAt(a, 0);
    CapitalizeAt(b, 0);
    CaseCharsAgree(a[0], b[0]);
    forall i | 1 <= i < |a|
      ensures la[i] == lb[i]
    {
      CapitalizeAt(a, i);
      CapitalizeAt(b, i);
    }
  }

  lemma SameLowerSameCapitalized(a: string, b: string)
    requires a != [] && JsText.ToLower(a) == JsText.ToLower(b)
    ensures Capitalize(a) == Capitalize(b)
  {
    var ca, cb := Capitalize(a), Capitalize(b);
    var la, lb := JsText.ToLower(a), JsText.ToLower(b);
    assert la[0] == lb[0];
    CaseCharsAgree(a[0], b[0]);
    forall i | 0 <= i < |a|
      ensures ca[i] == cb[i]
    {
      CapitalizeAt(a, i);
      CapitalizeAt(b, i);
      assert la[i] == lb[i];
    }
  }

  /** Every spelling of "parent" becomes "Parent", and nothing else does. */
  lemma CapitalizeParent(s: string)
    ensures Capitalize(s) == "Parent" <==> JsText.ToLower(s) == "parent"
  {
    ParentIsCapitalized();
    CapitalizeCaseInsensitive(s, "Parent");
  }

  /** `"parent"`, `"PARENT"` and `"Parent"` all become `"Parent"`. */
  lemma CapitalizeParentSpellings()
    ensures Capitalize("parent") == "Parent" && Capitalize("PARENT") == "Parent"
      && Capitalize("Parent") == "Parent"
  {
    ParentIsCapitalized();
    CapitalizeCaseInsensitive("parent", "Parent");
    CapitalizeCaseInsensitive("PARENT", "Parent");
  }

  lemma ParentIsCapitalized()
    ensures Capitalize("Parent") == "Parent" && JsText.ToLower("Parent") == "parent"
    ensures JsText.ToLower("parent") == "parent" && JsText.ToLower("PARENT") == "parent"
  {
    LowerOfParent("Parent");
    LowerOfParent("parent");
    LowerOfParent("PARENT");
    assert Capitalize("Parent") == ['P'] + JsText.ToLower("arent");
    assert JsText.ToLower("arent") == "arent" by {
      assert "Parent"[1..] == "arent";
      assert JsText.ToLower("Parent")[1..] == "arent";
    }
  }

  /** The three spellings of "parent" lower-case alike. */
  lemma LowerOfParent(s: string)
    requires s == "Parent" || s == "parent" || s == "PARENT"
    ensures JsText.ToLower(s) == "parent"
  {
    var r := JsText.ToLower(s);
    assert |r| == 6;
    assert r[0] == 'p' && r[1] == 'a' && r[2] == 'r' && r[3] == 'e' && r[4] == 'n' && r[5] == 't';
  }

  /** What `extractContactData` returns for the field map `fd`. `date` is the
      outcome of the Adelaide time conversion, which runs before the checks;
      None when it throws, and the `catch` then rejects the submission. */
  ghost predicate Extracted(fd: FlatFields, date: Option<string>, r: Option<ContactRecord>) {
    && (r.None? <==> date.None? || !Truthy(fd, Email) || !Truthy(fd, RegType))
    && (r.Some? ==>
          var c := r.value;
          && c.email == JsText.Trim(JsText.ToLower(fd[Id(Email)]))
          && c.contactName == JsText.Trim(TextOr(fd, FirstName) + " " + TextOr(fd, LastName))
          && c.registrationType == Capitalize(fd[Id(RegType)])
          && c.firstName == TextOr(fd, FirstName) && c.lastName == TextOr(fd, LastName)
          && c.phone == TextOr(fd, Phone) && c.additionalNotes == TextOr(fd, AdditionalNotes)
          && c.submissionDate == date.value && c.status == NewStatus)
    && (r.Some? ==>
          var raw, d := fd[Id(RegType)], r.value.details;
          && (d.ParentDetails? <==> raw == "parent")
          && (d.PlayerDetails? <==> raw == "player")
          && (d.ClubDetails? <==> raw == "club")
          && (d.ParentDetails? ==>
                d.schoolName == TextOr(fd, SchoolName)
                && d.numberOfChildren == JsNumber.CountOrZero(Lookup(fd, NumberOfChildren)))
          && (d.PlayerDetails? ==> d.playerClubName == TextOr(fd, PlayerClubName))
          && (d.ClubDetails? ==>
                d.clubName == TextOr(fd, ClubName) && d.clubSportType == TextOr(fd, ClubSportType)
                && d.clubNumberOfPlayers == JsNumber.CountOrZero(Lookup(fd, ClubNumberOfPlayers))))
  }

  /** `extractContactData`: reads the common fields, rejects a submission with
      no email or no registration type (or whose date conversion threw), and
      adds the sub-fields of the registration type as it was submitted. */
  method ExtractContactData(fd: FlatFields, date: Option<string>) returns (r: Option<ContactRecord>)
    ensures Extracted(fd, date, r)
  {
    var regType := TextOr(fd, RegType);
    var firstName := TextOr(fd, FirstName);
    var lastName := TextOr(fd, LastName);
    var email := Lookup(fd, Email);
    var phone := TextOr(fd, Phone);
    var additionalNotes := TextOr(fd, AdditionalNotes);
    if date.None? {
      return None;
    }
    var submissionDate := date.value;

    if email.None? || email.value == "" {
      return None;
    }
    if regType == "" {
      return None;
    }

    var contactName := JsText.Trim(firstName + " " + lastName);
    var result := ContactRecord(
      registrationType := Capitalize(regType),
      contactName := contactName,
      firstName := firstName,
      lastName := lastName,
      email := JsText.Trim(JsText.ToLower(email.value)),
      phone := phone,
      additionalNotes := additionalNotes,
      submissionDate := submissionDate,
      status := NewStatus,
      details := NoDetails);

    if regType == "parent" {
      result := result.(details := ParentDetails(
        TextOr(fd, SchoolName), JsNumber.CountOrZero(Lookup(fd, NumberOfChildren))));
    } else if regType == "player" {
      result := result.(details := PlayerDetails(TextOr(fd, PlayerClubName)));
    } else if regType == "club" {
      result := result.(details := ClubDetails(
        TextOr(fd, ClubName), TextOr(fd, ClubSportType),
        JsNumber.CountOrZero(Lookup(fd, ClubNumberOfPlayers))));
    }
    return Some(result);
  }

  /** The email check runs before trimming: an email of white space only is
      accepted and stored as the empty string. */
  lemma WhitespaceEmailStoredEmpty(fd: FlatFields, date: Option<string>, r: Option<ContactRecord>)
    requires Id(Email) in fd && fd[Id(Email)] != "" && JsText.AllWhitespace(fd[Id(Email)])
    requires Truthy(fd, RegType) && date.Some?
    requires Extracted(fd, date, r)
    ensures r.Some? && r.value.email == ""
  {
    var e := fd[Id(Email)];
    ExtractedEmail(fd, date, r);
    LowerKeepsWhitespace(e);
    WhitespaceTrimsAway(e);
  }

  /** The stored email of an accepted submission. */
  lemma ExtractedEmail(fd: FlatFields, date: Option<string>, r: Option<ContactRecord>)
    requires Truthy(fd, Email) && Truthy(fd, RegType) && date.Some?
    requires Extracted(fd, date, r)
    ensures r.Some? && r.value.email == JsText.Trim(JsText.ToLower(fd[Id(Email)]))
  {
  }

  /** Lower-casing leaves white space alone. */
  lemma LowerKeepsWhitespace(e: string)
    requires JsText.AllWhitespace(e)
    ensures JsText.ToLower(e) == e
  {
  }

  lemma WhitespaceTrimsAway(e: string)
    requires JsText.AllWhitespace(e)
    ensures JsText.Trim(e) == ""
  {
    assert JsText.TrimStart(e) == "" by {
      TrimStartAllWhitespace(e);
    }
  }

  lemma {:induction false} TrimStartAllWhitespace(e: string)
    requires JsText.AllWhitespace(e)
    ensures JsText.TrimStart(e) == ""
  {
    if e != [] {
      TrimStartAllWhitespace(e[1..]);
    }
  }
}
