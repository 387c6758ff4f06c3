/**
 * The borrower's profile page: the notification preferences and the
 * reading-history table.
 */
module Profile {
  import opened Wrappers

  /** `profileData`: the contact fields and the preference switches by key. */
  datatype ProfileData = ProfileData(
    name: string,
    email: string,
    phone: string,
    address: string,
    preferences: map<string, bool>)

  /**
   * The preference toggle: the key gets the negation of its value, a missing
   * key counting as false, and every other key keeps its value.
   */
  function Toggled(prefs: map<string, bool>, key: string): (r: map<string, bool>)
    ensures r.Keys == prefs.Keys + {key}
    ensures r[key] == !(key in prefs && prefs[key])
    ensures forall k :: k in prefs && k != key ==> r[k] == prefs[k]
  {
    prefs[key := !(key in prefs && prefs[key])]
  }

  /** Toggling a switch twice puts it back. */
  lemma ToggleTwice(prefs: map<string, bool>, key: string)
    requires key in prefs
    ensures Toggled(Toggled(prefs, key), key) == prefs
  {
  }

  /** A key the preferences do not hold is switched on first, and stays in the map afterwards. */
  lemma ToggleMissingKey(prefs: map<string, bool>, key: string)
    requires key !in prefs
    ensures Toggled(prefs, key)[key]
    ensures Toggled(Toggled(prefs, key), key) != prefs
  {
    assert key in Toggled(Toggled(prefs, key), key);
  }

  /** The history table's status label: only a borrowed entry reads as currently borrowed. */
  function StatusLabel(status: string): (shown: string)
    ensures shown == "Currently Borrowed" <==> status == "borrowed"
    ensures shown == "Currently Borrowed" || shown == "Returned"
  {
    if status == "borrowed" then "Currently Borrowed" else "Returned"
  }

  /** The four text inputs of the profile form. */
  datatype ContactField = NameField | EmailField | PhoneField | AddressField

  /** An input's `onChange`: the one field takes the typed value, the rest of the profile stays. */
  function WithContact(p: ProfileData, field: ContactField, value: string): (r: ProfileData)
    ensures r.preferences == p.preferences
    ensures r.name == (if field == NameField then value else p.name)
    ensures r.email == (if field == EmailField then value else p.email)
    ensures r.phone == (if field == PhoneField then value else p.phone)
    ensures r.address == (if field == AddressField then value else p.address)
  {
    match field
    case NameField => p.(name := value)
    case EmailField => p.(email := value)
    case PhoneField => p.(phone := value)
    case AddressField => p.(address := value)
  }

  /** Typing does not touch the switches, and toggling a switch does not touch the contact fields. */
  lemma ContactAndPreferencesIndependent(p: ProfileData, field: ContactField, value: string, key: string)
    ensures WithContact(p.(preferences := Toggled(p.preferences, key)), field, value)
         == WithContact(p, field, value).(preferences := Toggled(p.preferences, key))
  {
  }

  /** The history table's returned-date cell: a missing or empty date shows as a dash. */
  function ReturnedCell(returnedDate: Option<string>): (cell: string)
    ensures returnedDate.None? ==> cell == "-"
    ensures returnedDate.Some? ==> cell == if returnedDate.value == "" then "-" else returnedDate.value
    ensures cell != ""
  {
    if returnedDate.Some? && returnedDate.value != "" then returnedDate.value else "-"
  }

  /** The page with its `profileData` state. */
  class ProfilePage {
    var profileData: ProfileData

    /** The initial state: the user's name and email, or empty strings, the placeholder phone and address, and the default switches. */
    constructor (userName: Option<string>, userEmail: Option<string>)
      ensures profileData.name == userName.GetOr("") && profileData.email == userEmail.GetOr("")
      ensures profileData.phone == "+1 (555) 123-4567" && profileData.address == "123 Main Street, City, State 12345"
      ensures profileData.preferences == map["notifications" := true, "emailUpdates" := true, "smsUpdates" := false]
    {
      profileData := ProfileData(
        userName.GetOr(""), userEmail.GetOr(""),
        "+1 (555) 123-4567", "123 Main Street, City, State 12345",
        map["notifications" := true, "emailUpdates" := true, "smsUpdates" := false]);
    }

    /** `handlePreferenceChange(key)`: only the preferences change, and only at `key`. */
    method HandlePreferenceChange(key: string)
      modifies this
      ensures profileData == old(profileData).(preferences := Toggled(old(profileData).preferences, key))
    {
      profileData := profileData.(preferences := Toggled(profileData.preferences, key));
    }

    /** The `onChange` of the name, email, phone or address input. */
    method HandleContactChange(field: ContactField, value: string)
      modifies this
      ensures profileData == WithContact(old(profileData), field, value)
    {
      match field
      case NameField => profileData := profileData.(name := value);
      case EmailField => profileData := profileData.(email := value);
      case PhoneField => profileData := profileData.(phone := value);
      case AddressField => profileData := profileData.(address := value);
    }
  }

  /** Two presses of the same switch leave the whole profile as it was. */
  method TogglePreferenceTwice(page: ProfilePage, key: string)
    requires key in page.profileData.preferences
    modifies page
    ensures page.profileData == old(page.profileData)
  {
    page.HandlePreferenceChange(key);
    page.HandlePreferenceChange(key);
    ToggleTwice(old(page.profileData).preferences, key);
  }
}
