/** The checks the multi-document upload runs before storing anything:
    required fields, scalar-or-list form fields, equal list lengths, the
    mandatory document types, and the per-document defaults. The storage
    upload and row inserts that follow are not modelled. */
module Uploads {
  import opened Common

  /** A form value as the handler sees it. */
  datatype Value = Undefined | Null | Str(s: string)

  /** JavaScript truthiness of a form value. */
  predicate Truthy(v: Value) {
    v.Str? && v.s != ""
  }

  /** A multipart field: sent once it arrives as a scalar, sent several
      times as a list. A field never sent is `Single(Undefined)`. */
  datatype Field = Single(v: Value) | Many(vs: seq<Value>)

  /** Truthiness of a field: a list is truthy even when empty. */
  predicate FieldTruthy(f: Field) {
    f.Many? || Truthy(f.v)
  }

  /** `Array.isArray(x) ? x : [x]`. */
  function AsList(f: Field): seq<Value> {
    match f
    case Single(v) => [v]
    case Many(vs) => vs
  }

  /** Normalising is idempotent and a scalar becomes a one-element list. */
  lemma AsListNormalises(f: Field)
    ensures AsList(Many(AsList(f))) == AsList(f)
    ensures f.Single? ==> |AsList(f)| == 1 && AsList(f)[0] == f.v
  {
  }

  const MandatoryTypes: seq<string> := ["hoja_vida", "antecedentes_judiciales"]

  /** The entries of `ts`, in order, whose value is not among `present`. */
  function Missing(ts: seq<string>, present: set<Value>): (r: seq<string>)
    ensures |r| <= |ts|
    ensures forall t :: t in r <==> t in ts && Str(t) !in present
  {
    if |ts| == 0 then []
    else
      var rest := Missing(ts[1..], present);
      assert forall t :: t in ts <==> t == ts[0] || t in ts[1..];
      if Str(ts[0]) !in present then [ts[0]] + rest else rest
  }

  /** The mandatory types absent from the union of the types already on
      file and the ones being uploaded, in the fixed order. */
  function MandatoryGaps(existing: seq<Value>, incoming: seq<Value>): (r: seq<string>)
    ensures r == (if Str("hoja_vida") in existing + incoming then [] else ["hoja_vida"])
              + (if Str("antecedentes_judiciales") in existing + incoming then [] else ["antecedentes_judiciales"])
    ensures r == [] <==> Str("hoja_vida") in existing + incoming && Str("antecedentes_judiciales") in existing + incoming
  {
    var present := set v | v in existing + incoming;
    assert MandatoryTypes[0] == "hoja_vida" && MandatoryTypes[1..] == ["antecedentes_judiciales"];
    assert MandatoryTypes[1..][1..] == [];
    assert Str("hoja_vida") in present <==> Str("hoja_vida") in existing + incoming;
    assert Str("antecedentes_judiciales") in present <==> Str("antecedentes_judiciales") in existing + incoming;
    var tail := Missing(MandatoryTypes[1..], present);
    assert tail == (if Str("antecedentes_judiciales") in present then [] else ["antecedentes_judiciales"]);
    var r := Missing(MandatoryTypes, present);
    assert r == (if Str("hoja_vida") in present then [] else ["hoja_vida"]) + tail;
    r
  }

  /** One document to store: its type, its beneficiary (null for the
      applicant themself) and its category. */
  datatype Item = Item(file: string, tipo: Value, beneficiario: Value, categoria: Value)

  /** An empty beneficiary id stands for "no beneficiary". */
  function BeneficiaryOf(v: Value): Value {
    if v == Str("") then Null else v
  }

  /** A missing or empty category means the main document set. */
  function CategoryOf(v: Value): Value {
    if Truthy(v) then v else Str("principal")
  }

  /** The per-document defaults: only an empty beneficiary id changes, to
      null; a falsy category becomes 'principal' and the category always
      ends up non-empty. */
  lemma DefaultsAreMinimal(v: Value)
    ensures BeneficiaryOf(v) == Null <==> v == Str("") || v == Null
    ensures v != Str("") ==> BeneficiaryOf(v) == v
    ensures Truthy(CategoryOf(v))
    ensures CategoryOf(v) == v <==> Truthy(v)
    ensures !Truthy(v) ==> CategoryOf(v) == Str("principal")
    ensures CategoryOf(CategoryOf(v)) == CategoryOf(v)
  {
  }

  /** The documents the upload loop stores, one per file in order, each
      paired with the type, beneficiary and category at its position. */
  function Items(files: seq<string>, tipos: seq<Value>, beneficiarios: seq<Value>, categorias: seq<Value>): (r: seq<Item>)
    requires |files| == |tipos| == |beneficiarios| == |categorias|
    ensures |r| == |files|
    ensures forall i :: 0 <= i < |r| ==>
              r[i] == Item(files[i], tipos[i], BeneficiaryOf(beneficiarios[i]), CategoryOf(categorias[i]))
  {
    if |files| == 0 then []
    else
      [Item(files[0], tipos[0], BeneficiaryOf(beneficiarios[0]), CategoryOf(categorias[0]))]
      + Items(files[1..], tipos[1..], beneficiarios[1..], categorias[1..])
  }

  /** The validation of `subirDocumentosMultiples` up to the first upload.
      `postulacionId` is the raw field and `parsedId` its `parseInt` value
      (`None` for NaN); `files` is the list the upload middleware collected,
      which is `Some([])` when no file arrived and `None` only when the
      middleware did not run;
      `applicationExists` and `existingTypes` are what the store answers for
      that id. */
  function ValidateUpload(postulacionId: Value, parsedId: Option<int>, files: Option<seq<string>>,
                          tipos: Field, beneficiarioIds: Field, categorias: Field,
                          applicationExists: bool, existingTypes: seq<Value>): (r: Result<seq<Item>>)
    ensures r == Err(MissingInput) <==>
              !Truthy(postulacionId) || files.None? || !FieldTruthy(tipos) || !FieldTruthy(categorias)
    ensures r == Err(InvalidValue) <==>
              Truthy(postulacionId) && files.Some? && FieldTruthy(tipos) && FieldTruthy(categorias)
              && parsedId.None?
    ensures r == Err(LengthMismatch) <==>
              && Truthy(postulacionId) && files.Some? && FieldTruthy(tipos) && FieldTruthy(categorias)
              && parsedId.Some?
              && (|files.value| != |AsList(tipos)| || |files.value| != |AsList(beneficiarioIds)|
                  || |files.value| != |AsList(categorias)|)
    ensures r == Err(UnknownApplication) <==>
              && Truthy(postulacionId) && parsedId.Some? && files.Some?
              && FieldTruthy(tipos) && FieldTruthy(categorias)
              && |files.value| == |AsList(tipos)| == |AsList(beneficiarioIds)| == |AsList(categorias)|
              && !applicationExists
    ensures r.Err? && r.failure.MissingMandatory? <==>
              && Truthy(postulacionId) && parsedId.Some? && files.Some?
              && FieldTruthy(tipos) && FieldTruthy(categorias)
              && |files.value| == |AsList(tipos)| == |AsList(beneficiarioIds)| == |AsList(categorias)|
              && applicationExists
              && MandatoryGaps(existingTypes, AsList(tipos)) != []
    ensures r.Err? && r.failure.MissingMandatory? ==>
              && r.failure.types != []
              && r.failure.types == MandatoryGaps(existingTypes, AsList(tipos))
    ensures r.Ok? <==>
              && Truthy(postulacionId) && parsedId.Some? && files.Some?
              && FieldTruthy(tipos) && FieldTruthy(categorias)
              && |files.value| == |AsList(tipos)| == |AsList(beneficiarioIds)| == |AsList(categorias)|
              && applicationExists
              && Str("hoja_vida") in existingTypes + AsList(tipos)
              && Str("antecedentes_judiciales") in existingTypes + AsList(tipos)
    ensures r.Ok? ==>
              && |r.value| == |files.value|
              && forall i :: 0 <= i < |r.value| ==>
                   && r.value[i].file == files.value[i]
                   && r.value[i].tipo == AsList(tipos)[i]
                   && r.value[i].beneficiario == BeneficiaryOf(AsList(beneficiarioIds)[i])
                   && r.value[i].categoria == CategoryOf(AsList(categorias)[i])
                   && Truthy(r.value[i].categoria)
  {
    if !Truthy(postulacionId) || files.None? || !FieldTruthy(tipos) || !FieldTruthy(categorias) then
      Err(MissingInput)
    else if parsedId.None? then Err(InvalidValue)
    else
      var ts := AsList(tipos);
      var bs := AsList(beneficiarioIds);
      var cs := AsList(categorias);
      var fs := files.value;
      if |fs| != |ts| || |fs| != |bs| || |fs| != |cs| then Err(LengthMismatch)
      else if !applicationExists then Err(UnknownApplication)
      else
        var missing := MandatoryGaps(existingTypes, ts);
        if |missing| > 0 then Err(MissingMandatory(missing))
        else Ok(Items(fs, ts, bs, cs))
  }
}
