/** The frozen table from semantic field names to Gravity Forms field IDs. */
module FormFields {

  datatype FormField =
    | RegType | FirstName | LastName | Email | Phone | AdditionalNotes | FormIdentifier
    | SchoolName | NumberOfChildren
    | PlayerClubName
    | ClubName | ClubSportType | ClubNumberOfPlayers

  /** The provider's identifier for each field; first and last name are
      sub-inputs 3 and 6 of the name field 6. */
  function Id(f: FormField): string {
    match f
    case RegType => "17"
    case FirstName => "6.3"
    case LastName => "6.6"
    case Email => "3"
    case Phone => "18"
    case AdditionalNotes => "27"
    case FormIdentifier => "14"
    case SchoolName => "7"
    case NumberOfChildren => "16"
    case PlayerClubName => "22"
    case ClubName => "24"
    case ClubSportType => "25"
    case ClubNumberOfPlayers => "26"
  }

  /** No two fields share an identifier, so a submitted key names at most one
      field. */
  lemma IdInjective(f: FormField, g: FormField)
    ensures Id(f) == Id(g) ==> f == g
  {
  }
}
