/**
 * Record assembly (`scrape_business_details`). The page is given as what the
 * selectors find on it: the text of each element, `None` where nothing matches.
 */
module Extraction {
  import opened Wrappers
  import opened Text
  import opened Hours

  datatype PageFields = PageFields(
    title: Option<string>,             // text of the business title heading
    businessType: Option<string>,      // text of the category button
    address: Option<string>,           // text of the address button's label
    website: Option<string>,           // href of the "Open website" link
    status: Option<string>,            // text of the closed-business notice
    domainMatch: Option<string>,       // first hostname match in the contact block's text
    phone: Option<string>,             // text of the phone button
    hoursTable: Option<seq<HoursRow>>) // rows of the opening-hours table

  /** Why no record comes out of a page: the title element is missing (an
      AttributeError on `None.text`), or the hours table fails validation. */
  datatype ExtractionError = MissingTitle | HoursFault(fault: HoursError)

  /** One record, as the column-to-value dict the scraper builds. */
  type Record = map<string, string>

  const FixedColumns: seq<string> := ["Company_Name", "Number", "Full_Address",
    "Gmaps_Domains", "Website", "Business_Type_Gmaps", "Business_Status"]

  /** The title text, stripped and with every double and single quote removed. */
  function CleanTitle(raw: string): (t: string)
    ensures '"' !in t && '\'' !in t
  {
    RemoveChar(RemoveChar(Strip(raw), '"'), '\'')
  }

  /** `elem.text.strip() if elem else ""`. */
  function StrippedOrEmpty(elem: Option<string>): string {
    match elem
    case Some(t) => Strip(t)
    case None => ""
  }

  /** `value if elem else ""`, for the fields taken without stripping. */
  function OrEmpty(elem: Option<string>): string {
    match elem
    case Some(t) => t
    case None => ""
  }

  /** The seven fixed columns, before the hours are merged in. */
  function FixedFields(page: PageFields, title: string): Record {
    map[
      "Company_Name" := title,
      "Number" := StrippedOrEmpty(page.phone),
      "Full_Address" := StrippedOrEmpty(page.address),
      "Gmaps_Domains" := OrEmpty(page.domainMatch),
      "Website" := OrEmpty(page.website),
      "Business_Type_Gmaps" := StrippedOrEmpty(page.businessType),
      "Business_Status" := StrippedOrEmpty(page.status)]
  }

  /** `scrape_business_details`: the fixed columns, then `update` with the hours dict. */
  function ScrapeBusinessDetails(page: PageFields): Result<Record, ExtractionError> {
    match page.title
    case None => Err(MissingTitle)
    case Some(raw) =>
      match BusinessTimings(page.hoursTable)
      case Err(e) => Err(HoursFault(e))
      case Ok(hours) => Ok(FixedFields(page, CleanTitle(raw)) + hours)
  }

  // ---------------------------------------------------------------------
  // Lemmas

  /** No weekday name is a fixed column, so merging the hours never overwrites one. */
  lemma NoColumnIsWeekday()
    ensures forall c | c in FixedColumns :: !IsWeekday(c)
  {
  }

  /** A record comes out exactly when the title exists and the hours validate;
      a missing title is reported before the hours are looked at. */
  lemma ExtractionOutcome(page: PageFields)
    ensures ScrapeBusinessDetails(page) == Err(MissingTitle) <==> page.title.None?
    ensures ScrapeBusinessDetails(page).Ok? <==>
      page.title.Some? && BusinessTimings(page.hoursTable).Ok?
    ensures page.title.Some? && BusinessTimings(page.hoursTable).Err? ==>
      ScrapeBusinessDetails(page) == Err(HoursFault(BusinessTimings(page.hoursTable).error))
  {
  }

  lemma FixedFieldsKeys(page: PageFields, title: string)
    ensures FixedFields(page, title).Keys == (set c | c in FixedColumns)
  {
  }

  /** The fixed column names are pairwise distinct. */
  lemma ColumnNamesDistinct()
    ensures "Company_Name" != "Number" && "Company_Name" != "Full_Address" && "Company_Name" != "Gmaps_Domains" && "Company_Name" != "Website" && "Company_Name" != "Business_Type_Gmaps" && "Company_Name" != "Business_Status"
    ensures "Number" != "Full_Address" && "Number" != "Gmaps_Domains" && "Number" != "Website" && "Number" != "Business_Type_Gmaps" && "Number" != "Business_Status"
    ensures "Full_Address" != "Gmaps_Domains" && "Full_Address" != "Website" && "Full_Address" != "Business_Type_Gmaps" && "Full_Address" != "Business_Status"
    ensures "Gmaps_Domains" != "Website" && "Gmaps_Domains" != "Business_Type_Gmaps" && "Gmaps_Domains" != "Business_Status"
    ensures "Website" != "Business_Type_Gmaps" && "Website" != "Business_Status"
    ensures "Business_Type_Gmaps" != "Business_Status"
  {
    assert "Company_Name"[0] != "Full_Address"[0];
  }

  lemma FixedFieldsValues(page: PageFields, title: string)
    ensures var f := FixedFields(page, title);
      && f["Company_Name"] == title
      && f["Number"] == StrippedOrEmpty(page.phone)
      && f["Full_Address"] == StrippedOrEmpty(page.address)
      && f["Gmaps_Domains"] == OrEmpty(page.domainMatch)
      && f["Website"] == OrEmpty(page.website)
      && f["Business_Type_Gmaps"] == StrippedOrEmpty(page.businessType)
      && f["Business_Status"] == StrippedOrEmpty(page.status)
  {
    var f := FixedFields(page, title);
    assert f["Company_Name"] == title by { ColumnNamesDistinct(); }
    assert f["Number"] == StrippedOrEmpty(page.phone) by { ColumnNamesDistinct(); }
    assert f["Full_Address"] == StrippedOrEmpty(page.address) by { ColumnNamesDistinct(); }
    assert f["Gmaps_Domains"] == OrEmpty(page.domainMatch) by { ColumnNamesDistinct(); }
    assert f["Website"] == OrEmpty(page.website) by { ColumnNamesDistinct(); }
    assert f["Business_Type_Gmaps"] == StrippedOrEmpty(page.businessType) by { ColumnNamesDistinct(); }
  }

  /** Merging a dict whose keys are disjoint from the fixed columns keeps both parts. */
  lemma MergeDisjoint(fixed: Record, hours: map<string, string>)
    requires fixed.Keys !! hours.Keys
    ensures (fixed + hours).Keys == fixed.Keys + hours.Keys
    ensures forall c :: c in fixed ==> (fixed + hours)[c] == fixed[c]
    ensures forall d :: d in hours ==> (fixed + hours)[d] == hours[d]
  {
  }

  /** The record of a page whose title exists and whose hours validate. */
  lemma RecordParts(page: PageFields)
    requires ScrapeBusinessDetails(page).Ok?
    ensures page.title.Some? && BusinessTimings(page.hoursTable).Ok?
    ensures var hours := BusinessTimings(page.hoursTable).value;
      && (set c | c in FixedColumns) !! hours.Keys
      && ScrapeBusinessDetails(page).value == FixedFields(page, CleanTitle(page.title.value)) + hours
  {
    var hours := BusinessTimings(page.hoursTable).value;
    TimingsKeys(page.hoursTable);
    NoColumnIsWeekday();
    assert forall c :: c in hours ==> c !in FixedColumns;
  }

  /** A record holds exactly the seven fixed columns and the hours' day keys,
      and carries every hours entry unchanged. */
  lemma RecordColumns(page: PageFields)
    requires ScrapeBusinessDetails(page).Ok?
    ensures var rec, hours := ScrapeBusinessDetails(page).value, BusinessTimings(page.hoursTable).value;
      && rec.Keys == (set c | c in FixedColumns) + hours.Keys
      && (set c | c in FixedColumns) !! hours.Keys
      && (forall d :: d in hours ==> rec[d] == hours[d])
  {
    var fixed := FixedFields(page, CleanTitle(page.title.value));
    RecordParts(page);
    FixedFieldsKeys(page, CleanTitle(page.title.value));
    MergeDisjoint(fixed, BusinessTimings(page.hoursTable).value);
  }

  /** Each fixed column keeps its own field's value after the hours are merged
      in; in particular the title carries no quote characters. */
  lemma RecordFields(page: PageFields)
    requires ScrapeBusinessDetails(page).Ok?
    ensures var rec := ScrapeBusinessDetails(page).value;
      && rec["Company_Name"] == CleanTitle(page.title.value)
      && '"' !in rec["Company_Name"] && '\'' !in rec["Company_Name"]
      && rec["Number"] == StrippedOrEmpty(page.phone)
      && rec["Full_Address"] == StrippedOrEmpty(page.address)
      && rec["Gmaps_Domains"] == OrEmpty(page.domainMatch)
      && rec["Website"] == OrEmpty(page.website)
      && rec["Business_Type_Gmaps"] == StrippedOrEmpty(page.businessType)
      && rec["Business_Status"] == StrippedOrEmpty(page.status)
  {
    var title := CleanTitle(page.title.value);
    var fixed := FixedFields(page, title);
    var rec := ScrapeBusinessDetails(page).value;
    RecordParts(page);
    FixedFieldsValues(page, title);
    MergeDisjoint(fixed, BusinessTimings(page.hoursTable).value);
    assert rec["Company_Name"] == fixed["Company_Name"];
    assert rec["Number"] == fixed["Number"];
    assert rec["Full_Address"] == fixed["Full_Address"];
    assert rec["Gmaps_Domains"] == fixed["Gmaps_Domains"];
    assert rec["Website"] == fixed["Website"];
    assert rec["Business_Type_Gmaps"] == fixed["Business_Type_Gmaps"];
    assert rec["Business_Status"] == fixed["Business_Status"];
  }

  /** Every optional element that is missing gives "" in its column. */
  lemma MissingFieldsAreEmpty(page: PageFields)
    requires ScrapeBusinessDetails(page).Ok?
    ensures var rec := ScrapeBusinessDetails(page).value;
      && (page.phone.None? ==> rec["Number"] == "")
      && (page.address.None? ==> rec["Full_Address"] == "")
      && (page.domainMatch.None? ==> rec["Gmaps_Domains"] == "")
      && (page.website.None? ==> rec["Website"] == "")
      && (page.businessType.None? ==> rec["Business_Type_Gmaps"] == "")
      && (page.status.None? ==> rec["Business_Status"] == "")
  {
    RecordFields(page);
  }

  /** A title whose stripped text has no quotes is kept as it is. */
  lemma CleanTitleKeepsPlainNames(raw: string)
    requires '"' !in Strip(raw) && '\'' !in Strip(raw)
    ensures CleanTitle(raw) == Strip(raw)
  {
    RemoveCharAbsent(Strip(raw), '"');
    RemoveCharAbsent(Strip(raw), '\'');
  }

  /** The cleaned title keeps every character of the stripped text except the quotes. */
  lemma CleanTitleKeepsOtherCharacters(raw: string, x: char)
    requires x != '"' && x != '\''
    ensures x in CleanTitle(raw) <==> x in Strip(raw)
  {
    RemoveCharKeeps(Strip(raw), '"', x);
    RemoveCharKeeps(RemoveChar(Strip(raw), '"'), '\'', x);
  }

  /** Apart from the quotes, the cleaned title has exactly the characters of
      the stripped text, each as often as there. */
  lemma CleanTitleCounts(raw: string)
    ensures multiset(CleanTitle(raw)) == multiset(Strip(raw))['"' := 0]['\'' := 0]
  {
    RemoveCharCounts(Strip(raw), '"');
    RemoveCharCounts(RemoveChar(Strip(raw), '"'), '\'');
  }
}
