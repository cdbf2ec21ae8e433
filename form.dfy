/**
 * Filling the fund-switch form for one extracted record: a fixed table of
 * ticked checkboxes, numbered rows from the semicolon-separated switch fields,
 * the resolved client and policy, and the write-back that marks the record done.
 */
module FundswitchForm {
  import opened Wrappers
  import opened Strings
  import opened RichText
  import opened Extraction
  import opened Directories

  /** The value given to a form field: a checkbox state, a text, or Python's `None`. */
  datatype FieldValue = Checked(on: bool) | Filled(text: string) | Blank

  /** The clock readings of one record: two "%d/%m/%Y" dates for the form, one "%Y-%m-%d" date for the write-back. */
  datatype Timestamps = Timestamps(formDate: string, page10Date: string, createdDate: string)

  /** The properties the write-back PATCH sets on the processed page. */
  datatype UpdatePayload = UpdatePayload(updatePdf: bool, status: string, datePdfCreated: string, filename: string)

  /** Everything one record produces: the form's field values, the write-back, and the PDF file name. */
  datatype FormOutput = FormOutput(entry: map<string, FieldValue>, payload: UpdatePayload, outputName: string)

  /** Why processing a record raises. */
  datatype ProcessError =
    | ClientNotFound(clientId: string)
    | PolicyNotFound(policyId: string)
    | MissingSwitchField(field: string)

  const CheckboxFields: set<string> := {
    "Check Box2", "Check Box5", "Check Box6", "Check Box9", "Check Box12", "Check Box31",
    "Check Box21", "Check Box192", "Check Box195", "Check Box1950", "Check Box1955",
    "Check Box19512", "Check Box2321", "Check Box2200"
  }
  /** The investment-experience field of page 2, a 65-character name written in two parts. */
  const ExperienceField: string := "Specified Investment Products" + " that was made in the last 3 years 1"
  const ExperienceAnswer: string := "Buying & Selling Unit Trust more than 6 times in the 3 years"

  const SwitchOutFundPrefix: string := "Switch Out From Fund Name Or Fund CodeRow"
  const AllocationPrefix: string := "Allocation Row"
  const SwitchInFundPrefix: string := "Switch In To Fund Name Or Fund CodeRow"
  const SwitchInAllocationSuffix: string := "_2"

  const SwitchOutFundField: string := "Switch Out From Fund Name"
  const SwitchOutAllocationField: string := "Switch Out Allocation"
  const SwitchInFundField: string := "Switch In To Fund Name"
  const SwitchInAllocationField: string := "Switch In Allocation"

  const FilenamePrefix: string := "FundswitchForm_"
  const PdfCreatedStatus: string := "PDF created"

  /** The entries every form starts with. */
  function FixedEntries(): map<string, FieldValue>
  {
    (map k | k in CheckboxFields :: Checked(true))[ExperienceField := Filled(ExperienceAnswer)]
  }

  /** The field name of row `i`: `f"{prefix}{i}{suffix}"`. */
  function RowKey(prefix: string, i: nat, suffix: string): string
  {
    prefix + NatToString(i) + suffix
  }

  /** The four numbered-row families of the form, as (prefix, suffix). */
  predicate Family(prefix: string, suffix: string)
  {
    || (prefix == SwitchOutFundPrefix && suffix == "")
    || (prefix == AllocationPrefix && suffix == "")
    || (prefix == SwitchInFundPrefix && suffix == "")
    || (prefix == AllocationPrefix && suffix == SwitchInAllocationSuffix)
  }

  /** What `for idx, v in enumerate(values, start=1): entry[key(idx)] = v` adds. */
  function RowEntries(prefix: string, suffix: string, values: seq<string>): map<string, FieldValue>
    decreases |values|
  {
    if values == [] then map[]
    else RowEntries(prefix, suffix, values[..|values| - 1])[RowKey(prefix, |values|, suffix) := Filled(values[|values| - 1])]
  }

  /** The pieces of a switch field: split on ';', each stripped, empty pieces kept. */
  function Segments(s: string): (r: seq<string>)
    ensures |r| == Count(s, ';') + 1
    ensures forall i :: 0 <= i < |r| ==> r[i] == Strip(Split(s, ';')[i])
  {
    StripAll(Split(s, ';'))
  }

  function NricValue(nric: Option<string>): FieldValue
  {
    match nric
    case None => Blank
    case Some(s) => Filled(s)
  }

  /** The `entry_data.update({...})` overlay. */
  function Overlay(policy: string, client: string, nric: Option<string>, dates: Timestamps): map<string, FieldValue>
  {
    map[
      "Policy Number" := Filled(policy),
      "Name of Policyholder AssigneeTrustee" := Filled(client),
      "NRIC No" := NricValue(nric),
      "Name of Life Assured" := Filled(client),
      "NRIC No_2" := NricValue(nric),
      "of NRIC No Passport No" := Filled(client),
      "acknowledge that I am aware of" := NricValue(nric),
      "DATE" := Filled(dates.formDate),
      "POLICY NUMBER" := Filled(policy),
      "Date" := Filled(dates.page10Date)
    ]
  }

  function WriteBackPayload(client: string, createdDate: string): UpdatePayload
  {
    UpdatePayload(false, PdfCreatedStatus, createdDate, FilenamePrefix + client)
  }

  function OutputName(client: string): string
  {
    FilenamePrefix + client + ".pdf"
  }

  /** All four switch fields of the record have a value. */
  predicate HasSwitchFields(info: Record)
  {
    && info.switchOutFundName.Some? && info.switchOutAllocation.Some?
    && info.switchInFundName.Some? && info.switchInAllocation.Some?
  }

  /**
   * One record's form, write-back and file name, given its resolved client name
   * and policy number. A switch field without a value fails at its `split`,
   * in the order the source splits them.
   */
  function FormFor(info: Record, client: string, policy: string, dates: Timestamps): (r: Result<FormOutput, ProcessError>)
    ensures r.Ok? <==> HasSwitchFields(info)
    ensures info.switchOutFundName.None? ==> r == Err(MissingSwitchField(SwitchOutFundField))
    ensures info.switchOutFundName.Some? && info.switchOutAllocation.None?
            ==> r == Err(MissingSwitchField(SwitchOutAllocationField))
    ensures info.switchOutFundName.Some? && info.switchOutAllocation.Some? && info.switchInFundName.None?
            ==> r == Err(MissingSwitchField(SwitchInFundField))
    ensures && info.switchOutFundName.Some? && info.switchOutAllocation.Some? && info.switchInFundName.Some?
            && info.switchInAllocation.None?
            ==> r == Err(MissingSwitchField(SwitchInAllocationField))
    ensures r.Ok? ==> var out := r.value;
      && out.payload.updatePdf == false
      && out.payload.status == "PDF created"
      && out.payload.datePdfCreated == dates.createdDate
      && out.payload.filename == "FundswitchForm_" + client
      && out.outputName == out.payload.filename + ".pdf"
  {
    if info.switchOutFundName.None? then Err(MissingSwitchField(SwitchOutFundField))
    else if info.switchOutAllocation.None? then Err(MissingSwitchField(SwitchOutAllocationField))
    else if info.switchInFundName.None? then Err(MissingSwitchField(SwitchInFundField))
    else if info.switchInAllocation.None? then Err(MissingSwitchField(SwitchInAllocationField))
    else
      var entry := Assemble(
        FixedEntries(),
        Segments(info.switchOutFundName.value), Segments(info.switchOutAllocation.value),
        Segments(info.switchInFundName.value), Segments(info.switchInAllocation.value),
        Overlay(policy, client, info.nric, dates));
      Ok(FormOutput(entry, WriteBackPayload(client, dates.createdDate), OutputName(client)))
  }

  /** One `enumerate` loop writing numbered rows into the entries. */
  method AssignRows(entry: map<string, FieldValue>, prefix: string, suffix: string, values: seq<string>)
    returns (e: map<string, FieldValue>)
    ensures e == entry + RowEntries(prefix, suffix, values)
  {
    e := entry;
    for i := 0 to |values|
      invariant e == entry + RowEntries(prefix, suffix, values[..i])
    {
      assert values[..i + 1][..i] == values[..i];
      e := e[RowKey(prefix, i + 1, suffix) := Filled(values[i])];
    }
    assert values[..|values|] == values;
  }

  /** The body of the per-record loop, from the split of the switch fields to the payload. */
  method FillForm(info: Record, client: string, policy: string, dates: Timestamps) returns (r: Result<FormOutput, ProcessError>)
    ensures r == FormFor(info, client, policy, dates)
  {
    var entry := FixedEntries();
    if info.switchOutFundName.None? { return Err(MissingSwitchField(SwitchOutFundField)); }
    var outFunds := Segments(info.switchOutFundName.value);
    if info.switchOutAllocation.None? { return Err(MissingSwitchField(SwitchOutAllocationField)); }
    var outAllocs := Segments(info.switchOutAllocation.value);
    entry := AssignRows(entry, SwitchOutFundPrefix, "", outFunds);
    entry := AssignRows(entry, AllocationPrefix, "", outAllocs);
    if info.switchInFundName.None? { return Err(MissingSwitchField(SwitchInFundField)); }
    var inFunds := Segments(info.switchInFundName.value);
    if info.switchInAllocation.None? { return Err(MissingSwitchField(SwitchInAllocationField)); }
    var inAllocs := Segments(info.switchInAllocation.value);
    entry := AssignRows(entry, SwitchInFundPrefix, "", inFunds);
    entry := AssignRows(entry, AllocationPrefix, SwitchInAllocationSuffix, inAllocs);
    entry := entry + Overlay(policy, client, info.nric, dates);
    r := Ok(FormOutput(entry, WriteBackPayload(client, dates.createdDate), OutputName(client)));
  }

  /**
   * The whole loop body for one record: resolve the client, then the policy,
   * then fill the form.
   */
  function ProcessRecord(info: Record, clients: map<string, string>, policies: map<string, string>, dates: Timestamps)
    : (r: Result<FormOutput, ProcessError>)
    ensures info.clientId !in clients ==> r == Err(ClientNotFound(info.clientId))
    ensures info.clientId in clients && info.policyId !in policies ==> r == Err(PolicyNotFound(info.policyId))
    ensures info.clientId in clients && info.policyId in policies
            ==> r == FormFor(info, clients[info.clientId], policies[info.policyId], dates)
  {
    match Match(clients, info.clientId)
    case Err(_) => Err(ClientNotFound(info.clientId))
    case Ok(client) =>
      match Match(policies, info.policyId)
      case Err(_) => Err(PolicyNotFound(info.policyId))
      case Ok(policy) => FormFor(info, client, policy, dates)
  }

  /** Row keys of one family are exactly the keys of rows 1 to |values|. */
  lemma {:induction false} RowEntriesKeys(prefix: string, suffix: string, values: seq<string>, k: string)
    ensures k in RowEntries(prefix, suffix, values) <==>
            exists i :: 1 <= i <= |values| && k == RowKey(prefix, i, suffix)
    decreases |values|
  {
    if values != [] {
      var init := values[..|values| - 1];
      RowEntriesKeys(prefix, suffix, init, k);
    }
  }

  /** The index of a row is recovered from its key. */
  lemma RowKeyInjective(prefix: string, suffix: string, i: nat, j: nat)
    requires RowKey(prefix, i, suffix) == RowKey(prefix, j, suffix)
    ensures i == j
  {
    var k := RowKey(prefix, i, suffix);
    var di, dj := NatToString(i), NatToString(j);
    assert |di| == |dj|;
    assert di == k[|prefix|..|prefix| + |di|];
    assert dj == k[|prefix|..|prefix| + |dj|];
    NatToStringInjective(i, j);
  }

  /** Row `i` of a family holds the i-th value, for every i from 1 to |values|. */
  lemma {:induction false} RowEntriesAt(prefix: string, suffix: string, values: seq<string>, i: nat)
    requires 1 <= i <= |values|
    ensures RowKey(prefix, i, suffix) in RowEntries(prefix, suffix, values)
    ensures RowEntries(prefix, suffix, values)[RowKey(prefix, i, suffix)] == Filled(values[i - 1])
    decreases |values|
  {
    var n := |values|;
    if i < n {
      var init := values[..n - 1];
      RowEntriesAt(prefix, suffix, init, i);
      if RowKey(prefix, i, suffix) == RowKey(prefix, n, suffix) {
        RowKeyInjective(prefix, suffix, i, n);
      }
    }
  }

  /** Rows of different families never share a key; within a family the index decides the key. */
  lemma RowKeysSeparate(p: string, s: string, i: nat, q: string, t: string, j: nat)
    requires Family(p, s) && Family(q, t)
    requires RowKey(p, i, s) == RowKey(q, j, t)
    ensures p == q && s == t && i == j
  {
    var k := RowKey(p, i, s);
    assert k[0] == p[0] && k[7] == p[7];
    assert k[0] == q[0] && k[7] == q[7];
    assert p == q;
    if s != t {
      if s == "" { SuffixedRowsDiffer(p, i, j); } else { SuffixedRowsDiffer(p, j, i); }
    }
    RowKeyInjective(p, s, i, j);
  }

  /** An "Allocation Row{i}" key never equals an "Allocation Row{j}_2" key. */
  lemma SuffixedRowsDiffer(p: string, i: nat, j: nat)
    ensures RowKey(p, i, "") != RowKey(p, j, SwitchInAllocationSuffix)
  {
    var di, dj := NatToString(i), NatToString(j);
    var ki, kj := RowKey(p, i, ""), RowKey(p, j, SwitchInAllocationSuffix);
    if |di| == |dj| + 2 {
      // Where row j's key has its '_', row i's key has a digit.
      assert ki[|p| + |dj|] == di[|dj|];
      assert kj[|p| + |dj|] == '_';
    }
  }

  /** A key that is no row of a family is not written by that family's loop. */
  lemma NotInOtherFamily(p: string, s: string, i: nat, q: string, t: string, values: seq<string>)
    requires Family(p, s) && Family(q, t) && (p != q || s != t)
    ensures RowKey(p, i, s) !in RowEntries(q, t, values)
  {
    RowEntriesKeys(q, t, values, RowKey(p, i, s));
    if RowKey(p, i, s) in RowEntries(q, t, values) {
      var j :| 1 <= j <= |values| && RowKey(p, i, s) == RowKey(q, j, t);
      RowKeysSeparate(p, s, i, q, t, j);
    }
  }

  /** Starts like a row key ("Sw…" or "Al…"). */
  predicate RowLike(k: string)
  {
    |k| >= 2 && ((k[0] == 'S' && k[1] == 'w') || (k[0] == 'A' && k[1] == 'l'))
  }

  /** No key of `m` starts like a row key. */
  ghost predicate NoRowKeys(m: map<string, FieldValue>)
  {
    forall k :: k in m ==> !RowLike(k)
  }

  lemma RowKeyIsRowLike(p: string, s: string, i: nat)
    requires Family(p, s)
    ensures RowLike(RowKey(p, i, s))
  {
    var k := RowKey(p, i, s);
    assert k[0] == p[0] && k[1] == p[1];
  }

  /** The fixed part holds the fourteen checkboxes and the investment-experience answer. */
  lemma FixedFieldNames()
    ensures forall f :: f in CheckboxFields ==> f[0] == 'C'
    ensures ExperienceField[0] == 'S' && ExperienceField[1] == 'p'
    ensures FixedEntries().Keys == CheckboxFields + {ExperienceField}
  {
  }

  /** The fixed field names are not row keys. */
  lemma FixedFieldsNotRowLike()
    ensures NoRowKeys(FixedEntries())
  {
    FixedFieldNames();
  }

  /** The fixed part ticks every listed checkbox and fills in the investment-experience answer. */
  lemma FixedEntriesValues()
    ensures forall k :: k in CheckboxFields ==> k in FixedEntries() && FixedEntries()[k] == Checked(true)
    ensures ExperienceField in FixedEntries() && FixedEntries()[ExperienceField] == Filled(ExperienceAnswer)
  {
    FixedFieldNames();
  }

  /** The overlaid field names are not row keys, and none starts like a fixed field name. */
  lemma OverlayFieldNames(policy: string, client: string, nric: Option<string>, dates: Timestamps)
    ensures NoRowKeys(Overlay(policy, client, nric, dates))
    ensures forall f :: f in Overlay(policy, client, nric, dates) ==> f[0] != 'C' && f[0] != 'S'
  {
  }

  /** The overlay writes none of the fixed fields. */
  lemma FixedFieldsNotOverlaid(policy: string, client: string, nric: Option<string>, dates: Timestamps)
    ensures forall k :: k in FixedEntries() ==> k !in Overlay(policy, client, nric, dates)
  {
    FixedFieldNames();
    OverlayFieldNames(policy, client, nric, dates);
  }

  /** The entries as the source assembles them, from any fixed part and any overlay. */
  function Assemble(fixed: map<string, FieldValue>, outFunds: seq<string>, outAllocs: seq<string>,
                    inFunds: seq<string>, inAllocs: seq<string>, overlay: map<string, FieldValue>): map<string, FieldValue>
  {
    fixed
    + RowEntries(SwitchOutFundPrefix, "", outFunds)
    + RowEntries(AllocationPrefix, "", outAllocs)
    + RowEntries(SwitchInFundPrefix, "", inFunds)
    + RowEntries(AllocationPrefix, SwitchInAllocationSuffix, inAllocs)
    + overlay
  }

  /** Which of the four row lists a family is filled from. */
  predicate FamilyValues(p: string, s: string, values: seq<string>,
                         outFunds: seq<string>, outAllocs: seq<string>, inFunds: seq<string>, inAllocs: seq<string>)
  {
    || (p == SwitchOutFundPrefix && s == "" && values == outFunds)
    || (p == AllocationPrefix && s == "" && values == outAllocs)
    || (p == SwitchInFundPrefix && s == "" && values == inFunds)
    || (p == AllocationPrefix && s == SwitchInAllocationSuffix && values == inAllocs)
  }

  /**
   * The layout of one family in the assembled entries: the key of row i is set
   * exactly for 1 <= i <= |values|, and holds the i-th value.
   */
  lemma FamilyInEntry(p: string, s: string, values: seq<string>, fixed: map<string, FieldValue>,
                      outFunds: seq<string>, outAllocs: seq<string>, inFunds: seq<string>, inAllocs: seq<string>,
                      overlay: map<string, FieldValue>)
    requires NoRowKeys(fixed) && NoRowKeys(overlay)
    requires FamilyValues(p, s, values, outFunds, outAllocs, inFunds, inAllocs)
    ensures var e := Assemble(fixed, outFunds, outAllocs, inFunds, inAllocs, overlay);
      && (forall i: nat :: RowKey(p, i, s) in e <==> 1 <= i <= |values|)
      && (forall i :: 1 <= i <= |values| ==> e[RowKey(p, i, s)] == Filled(values[i - 1]))
  {
    var e := Assemble(fixed, outFunds, outAllocs, inFunds, inAllocs, overlay);
    forall i: nat ensures RowKey(p, i, s) in e <==> 1 <= i <= |values|
      ensures 1 <= i <= |values| ==> RowKey(p, i, s) in e && e[RowKey(p, i, s)] == Filled(values[i - 1])
    {
      var k := RowKey(p, i, s);
      RowKeyIsRowLike(p, s, i);
      assert k !in fixed && k !in overlay;
      if p != SwitchOutFundPrefix || s != "" { NotInOtherFamily(p, s, i, SwitchOutFundPrefix, "", outFunds); }
      if p != AllocationPrefix || s != "" { NotInOtherFamily(p, s, i, AllocationPrefix, "", outAllocs); }
      if p != SwitchInFundPrefix || s != "" { NotInOtherFamily(p, s, i, SwitchInFundPrefix, "", inFunds); }
      if p != AllocationPrefix || s != SwitchInAllocationSuffix {
        NotInOtherFamily(p, s, i, AllocationPrefix, SwitchInAllocationSuffix, inAllocs);
      }
      RowEntriesKeys(p, s, values, k);
      if k in RowEntries(p, s, values) {
        var j :| 1 <= j <= |values| && k == RowKey(p, j, s);
        RowKeyInjective(p, s, i, j);
      }
      if 1 <= i <= |values| {
        RowEntriesAt(p, s, values, i);
      }
    }
  }

  /** A key that starts unlike a row key is written by none of the row loops. */
  lemma NotRowLikeNotInRows(k: string, outFunds: seq<string>, outAllocs: seq<string>, inFunds: seq<string>, inAllocs: seq<string>)
    requires !RowLike(k)
    ensures k !in RowEntries(SwitchOutFundPrefix, "", outFunds)
    ensures k !in RowEntries(AllocationPrefix, "", outAllocs)
    ensures k !in RowEntries(SwitchInFundPrefix, "", inFunds)
    ensures k !in RowEntries(AllocationPrefix, SwitchInAllocationSuffix, inAllocs)
  {
    RowEntriesKeys(SwitchOutFundPrefix, "", outFunds, k);
    RowEntriesKeys(AllocationPrefix, "", outAllocs, k);
    RowEntriesKeys(SwitchInFundPrefix, "", inFunds, k);
    RowEntriesKeys(AllocationPrefix, SwitchInAllocationSuffix, inAllocs, k);
    forall p, s, i: nat | Family(p, s) ensures RowLike(RowKey(p, i, s)) {
      RowKeyIsRowLike(p, s, i);
    }
  }

  /** A fixed part that no row and no overlaid field writes reaches the finished entries unchanged. */
  lemma FixedSurvive(fixed: map<string, FieldValue>,
                     outFunds: seq<string>, outAllocs: seq<string>, inFunds: seq<string>, inAllocs: seq<string>,
                     overlay: map<string, FieldValue>)
    requires NoRowKeys(fixed) && forall k :: k in fixed ==> k !in overlay
    ensures var e := Assemble(fixed, outFunds, outAllocs, inFunds, inAllocs, overlay);
      forall k :: k in fixed ==> k in e && e[k] == fixed[k]
  {
    forall k | k in fixed
      ensures var e := Assemble(fixed, outFunds, outAllocs, inFunds, inAllocs, overlay); k in e && e[k] == fixed[k]
    {
      NotRowLikeNotInRows(k, outFunds, outAllocs, inFunds, inAllocs);
    }
  }

  /** Row i of a split field holds its i-th `;`-separated piece, stripped; rows 1 to k+1 for k separators. */
  ghost predicate RowsHoldSegments(entry: map<string, FieldValue>, prefix: string, suffix: string, field: string)
  {
    && (forall i: nat :: RowKey(prefix, i, suffix) in entry <==> 1 <= i <= Count(field, ';') + 1)
    && (forall i :: 1 <= i <= Count(field, ';') + 1 ==>
          entry[RowKey(prefix, i, suffix)] == Filled(Strip(Split(field, ';')[i - 1])))
  }

  /** A family filled from a split field lays out that field's pieces, whatever the fixed part and overlay. */
  lemma SegmentRows(p: string, s: string, field: string, fixed: map<string, FieldValue>,
                    outFunds: seq<string>, outAllocs: seq<string>, inFunds: seq<string>, inAllocs: seq<string>,
                    overlay: map<string, FieldValue>)
    requires NoRowKeys(fixed) && NoRowKeys(overlay)
    requires FamilyValues(p, s, Segments(field), outFunds, outAllocs, inFunds, inAllocs)
    ensures RowsHoldSegments(Assemble(fixed, outFunds, outAllocs, inFunds, inAllocs, overlay), p, s, field)
  {
    FamilyInEntry(p, s, Segments(field), fixed, outFunds, outAllocs, inFunds, inAllocs, overlay);
  }

  /** The overlay's values, field by field. */
  lemma OverlayValues(policy: string, client: string, nric: Option<string>, dates: Timestamps)
    ensures var o := Overlay(policy, client, nric, dates);
      && "Policy Number" in o && "POLICY NUMBER" in o && "Name of Policyholder AssigneeTrustee" in o
      && "Name of Life Assured" in o && "of NRIC No Passport No" in o && "NRIC No" in o && "NRIC No_2" in o
      && "acknowledge that I am aware of" in o && "DATE" in o && "Date" in o
      && o["Policy Number"] == o["POLICY NUMBER"] == Filled(policy)
      && o["Name of Policyholder AssigneeTrustee"] == o["Name of Life Assured"] == o["of NRIC No Passport No"] == Filled(client)
      && o["NRIC No"] == o["NRIC No_2"] == o["acknowledge that I am aware of"] == NricValue(nric)
      && o["DATE"] == Filled(dates.formDate) && o["Date"] == Filled(dates.page10Date)
  {
    assert "Policy Number"[1] != "POLICY NUMBER"[1];
    assert "DATE"[1] != "Date"[1];
  }

  /** The entries of a successful record, as an assembly of the fixed part, the rows and the overlay. */
  lemma FormEntryAssembled(info: Record, client: string, policy: string, dates: Timestamps)
    requires HasSwitchFields(info)
    ensures FormFor(info, client, policy, dates).value.entry ==
            Assemble(FixedEntries(), Segments(info.switchOutFundName.value), Segments(info.switchOutAllocation.value),
                     Segments(info.switchInFundName.value), Segments(info.switchInAllocation.value),
                     Overlay(policy, client, info.nric, dates))
  {
    assert FormFor(info, client, policy, dates) == Ok(FormOutput(
      Assemble(FixedEntries(), Segments(info.switchOutFundName.value), Segments(info.switchOutAllocation.value),
               Segments(info.switchInFundName.value), Segments(info.switchInAllocation.value),
               Overlay(policy, client, info.nric, dates)),
      WriteBackPayload(client, dates.createdDate), OutputName(client)));
  }

  /** Each of the four switch fields fills exactly its own numbered rows. */
  lemma FormRows(info: Record, client: string, policy: string, dates: Timestamps)
    requires HasSwitchFields(info)
    ensures var e := FormFor(info, client, policy, dates).value.entry;
      && RowsHoldSegments(e, SwitchOutFundPrefix, "", info.switchOutFundName.value)
      && RowsHoldSegments(e, AllocationPrefix, "", info.switchOutAllocation.value)
      && RowsHoldSegments(e, SwitchInFundPrefix, "", info.switchInFundName.value)
      && RowsHoldSegments(e, AllocationPrefix, "_2", info.switchInAllocation.value)
  {
    var outFunds, outAllocs := Segments(info.switchOutFundName.value), Segments(info.switchOutAllocation.value);
    var inFunds, inAllocs := Segments(info.switchInFundName.value), Segments(info.switchInAllocation.value);
    var fixed, overlay := FixedEntries(), Overlay(policy, client, info.nric, dates);
    FormEntryAssembled(info, client, policy, dates);
    FixedFieldsNotRowLike();
    OverlayFieldNames(policy, client, info.nric, dates);
    SegmentRows(SwitchOutFundPrefix, "", info.switchOutFundName.value, fixed, outFunds, outAllocs, inFunds, inAllocs, overlay);
    SegmentRows(AllocationPrefix, "", info.switchOutAllocation.value, fixed, outFunds, outAllocs, inFunds, inAllocs, overlay);
    SegmentRows(SwitchInFundPrefix, "", info.switchInFundName.value, fixed, outFunds, outAllocs, inFunds, inAllocs, overlay);
    SegmentRows(AllocationPrefix, SwitchInAllocationSuffix, info.switchInAllocation.value, fixed, outFunds, outAllocs, inFunds, inAllocs, overlay);
  }

  /** The fixed entries survive the mapping: every listed checkbox is still ticked, the answer unchanged. */
  lemma FormCheckboxes(info: Record, client: string, policy: string, dates: Timestamps)
    requires HasSwitchFields(info)
    ensures var e := FormFor(info, client, policy, dates).value.entry;
      && (forall k :: k in CheckboxFields ==> k in e && e[k] == Checked(true))
      && ExperienceField in e && e[ExperienceField] == Filled(ExperienceAnswer)
  {
    FormEntryAssembled(info, client, policy, dates);
    FixedFieldsNotRowLike();
    FixedFieldsNotOverlaid(policy, client, info.nric, dates);
    FixedSurvive(FixedEntries(), Segments(info.switchOutFundName.value), Segments(info.switchOutAllocation.value),
                 Segments(info.switchInFundName.value), Segments(info.switchInAllocation.value),
                 Overlay(policy, client, info.nric, dates));
    FixedEntriesValues();
  }

  /** The overlaid fields carry the policy number, the client name, the NRIC and the dates. */
  lemma FormOverlaid(info: Record, client: string, policy: string, dates: Timestamps)
    requires HasSwitchFields(info)
    ensures var e := FormFor(info, client, policy, dates).value.entry;
      && e["Policy Number"] == e["POLICY NUMBER"] == Filled(policy)
      && e["Name of Policyholder AssigneeTrustee"] == e["Name of Life Assured"] == e["of NRIC No Passport No"] == Filled(client)
      && e["NRIC No"] == e["NRIC No_2"] == e["acknowledge that I am aware of"]
         == (if info.nric.Some? then Filled(info.nric.value) else Blank)
      && e["DATE"] == Filled(dates.formDate) && e["Date"] == Filled(dates.page10Date)
  {
    FormEntryAssembled(info, client, policy, dates);
    OverlayValues(policy, client, info.nric, dates);
  }

  /** The page as it reads after the write-back PATCH has been applied. */
  function ApplyWriteBack(p: Page, u: UpdatePayload): Page
  {
    p.(updatePdf := u.updatePdf, status := u.status, filenameTitle := Some([TextRun(Some(u.filename))]))
  }

  /**
   * A processed record is not extracted again: after its write-back, its id is
   * in the next extraction only if another ticked page carries the same id.
   */
  lemma WrittenBackNotReExtracted(pages: seq<Page>, i: nat, client: string, createdDate: string)
    requires i < |pages|
    requires ExtractAll(pages[i := ApplyWriteBack(pages[i], WriteBackPayload(client, createdDate))]).Ok?
    ensures var next := ExtractAll(pages[i := ApplyWriteBack(pages[i], WriteBackPayload(client, createdDate))]).value;
      pages[i].id in next <==> exists j :: 0 <= j < |pages| && j != i && pages[j].updatePdf && pages[j].id == pages[i].id
  {
    var after := pages[i := ApplyWriteBack(pages[i], WriteBackPayload(client, createdDate))];
    ExtractKeptIff(after, pages[i].id);
    if Kept(after, pages[i].id) {
      var j :| 0 <= j < |after| && after[j].updatePdf && after[j].id == pages[i].id;
      assert j != i && pages[j] == after[j];
    }
    if exists j :: 0 <= j < |pages| && j != i && pages[j].updatePdf && pages[j].id == pages[i].id {
      var j :| 0 <= j < |pages| && j != i && pages[j].updatePdf && pages[j].id == pages[i].id;
      assert after[j] == pages[j];
    }
  }
}
