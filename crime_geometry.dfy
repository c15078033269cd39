// PublicSafety/crimeGeometry.py: police administrative areas.  The classes
// PoliceArea, PSA and District assign their fields once in their constructors,
// so they are modelled as one value type with a constructor per subclass, built
// by functions that either return the area or the exception the source raises.
module CrimeGeometry {
  import opened Results

  /** A police area; every kind carries the `areaID` of the base class. */
  datatype PoliceArea =
    | PSA(areaID: string, district: char)
    | District(areaID: string, psaList: Option<seq<PsaEntry>>)

  /** One element of the `psas` list given to `District`: a `str`, an area
      object, or a value of any other type (assumed not indexable). */
  datatype PsaEntry = Str(s: string) | Area(area: PoliceArea) | OtherValue

  /** The exceptions the constructors can raise. */
  datatype GeometryError = CrimeGeometryError(message: string) | TypeError

  const PSA_TOO_SHORT := "CrimeGeometryError: PSA number not long enough."

  /** `PSA(psaNumber)`: the district is the first character of the PSA number;
      an empty number raises CrimeGeometryError. */
  function NewPsa(psaNumber: string): (r: Result<PoliceArea, GeometryError>)
    ensures r.Success? <==> |psaNumber| > 0
    ensures r.Success? ==> r.value.PSA? && r.value.areaID == psaNumber && r.value.district == psaNumber[0]
    ensures r.Failure? ==> r.error == CrimeGeometryError(PSA_TOO_SHORT)
  {
    if |psaNumber| == 0 then Failure(CrimeGeometryError(PSA_TOO_SHORT))
    else Success(PSA(psaNumber, psaNumber[0]))
  }

  /** `PSA(x)` applied to a list element: indexing a non-string raises TypeError. */
  function PsaOf(e: PsaEntry): Result<PoliceArea, GeometryError>
  {
    match e
    case Str(s) => NewPsa(s)
    case _ => Failure(TypeError)
  }

  /** `[PSA(psa) for psa in psas]`, raising the first element's exception. */
  function PsasOf(psas: seq<PsaEntry>): Result<seq<PsaEntry>, GeometryError>
  {
    if |psas| == 0 then Success([])
    else match PsaOf(psas[0])
      case Failure(e) => Failure(e)
      case Success(p) =>
        match PsasOf(psas[1..])
        case Failure(e) => Failure(e)
        case Success(rest) => Success([Area(p)] + rest)
  }

  /** `District(districtNumber, psas)`. */
  function NewDistrict(districtNumber: string, psas: seq<PsaEntry>): (r: Result<PoliceArea, GeometryError>)
    ensures r.Success? ==> r.value.District? && r.value.areaID == districtNumber
    ensures |psas| == 0 ==> r == Success(District(districtNumber, None))
    ensures |psas| > 0 && psas[0].Area? && psas[0].area.PSA? ==> r == Success(District(districtNumber, Some(psas)))
    ensures |psas| > 0 && (psas[0].OtherValue? || (psas[0].Area? && !psas[0].area.PSA?)) ==>
              r == Success(District(districtNumber, None))
  {
    if |psas| == 0 then Success(District(districtNumber, None))
    else if psas[0].Str? then
      match PsasOf(psas)
      case Failure(e) => Failure(e)
      case Success(list) => Success(District(districtNumber, Some(list)))
    else if psas[0].Area? && psas[0].area.PSA? then Success(District(districtNumber, Some(psas)))
    else Success(District(districtNumber, None))
  }

  function Strs(numbers: seq<string>): (r: seq<PsaEntry>)
    ensures |r| == |numbers| && forall i :: 0 <= i < |numbers| ==> r[i] == Str(numbers[i])
  {
    if |numbers| == 0 then [] else [Str(numbers[0])] + Strs(numbers[1..])
  }

  lemma {:induction false} PsasOfStrings(numbers: seq<string>)
    ensures PsasOf(Strs(numbers)).Success? <==> forall i :: 0 <= i < |numbers| ==> |numbers[i]| > 0
    ensures PsasOf(Strs(numbers)).Success? ==>
              var list := PsasOf(Strs(numbers)).value;
              |list| == |numbers| &&
              forall i :: 0 <= i < |numbers| ==> list[i] == Area(PSA(numbers[i], numbers[i][0]))
    ensures PsasOf(Strs(numbers)).Failure? ==> PsasOf(Strs(numbers)).error == CrimeGeometryError(PSA_TOO_SHORT)
  {
    if |numbers| > 0 {
      var es := Strs(numbers);
      assert es[1..] == Strs(numbers[1..]);
      PsasOfStrings(numbers[1..]);
      if |numbers[0]| > 0 && PsasOf(es[1..]).Success? {
        var rest := PsasOf(es[1..]).value;
        var list := PsasOf(es).value;
        assert list == [Area(PSA(numbers[0], numbers[0][0]))] + rest;
        forall i | 0 <= i < |numbers|
          ensures list[i] == Area(PSA(numbers[i], numbers[i][0]))
        {
          if i > 0 {
            assert list[i] == rest[i - 1];
            assert numbers[1..][i - 1] == numbers[i];
          }
        }
      }
      if PsasOf(es[1..]).Failure? {
        var j :| 0 <= j < |numbers[1..]| && |numbers[1..][j]| == 0;
        assert |numbers[j + 1]| == 0;
      }
    }
  }

  /** A district built from PSA number strings holds one PSA per string, in order,
      each with its district taken from the string; any empty string makes it fail. */
  lemma DistrictFromStrings(districtNumber: string, numbers: seq<string>)
    requires |numbers| > 0
    ensures NewDistrict(districtNumber, Strs(numbers)).Success? <==> forall i :: 0 <= i < |numbers| ==> |numbers[i]| > 0
    ensures NewDistrict(districtNumber, Strs(numbers)).Success? ==>
              var d := NewDistrict(districtNumber, Strs(numbers)).value;
              d.psaList.Some? && |d.psaList.value| == |numbers| &&
              forall i :: 0 <= i < |numbers| ==>
                d.psaList.value[i].Area? && d.psaList.value[i].area.areaID == numbers[i] &&
                d.psaList.value[i].area == PSA(numbers[i], numbers[i][0])
    ensures NewDistrict(districtNumber, Strs(numbers)).Failure? ==>
              NewDistrict(districtNumber, Strs(numbers)).error == CrimeGeometryError(PSA_TOO_SHORT)
  {
    PsasOfStrings(numbers);
  }

  // ---------------------------------------------------------------------------
  // PoliceArea.getIncidentQuery

  const QUERY_HEAD := "\n\t\tSELECT * FROM "
  const QUERY_WHERE := "\n\t\tWHERE "
  const QUERY_EQ := " = '"
  const QUERY_TAIL := "'\n\t\t"

  /** The query text; the area id is put between single quotes without escaping. */
  function GetIncidentQuery(area: PoliceArea, inctTable: string, idField: string, condition: string): (q: string)
    ensures |q| > |QUERY_HEAD + inctTable| + |condition|
    ensures q[..|QUERY_HEAD + inctTable|] == QUERY_HEAD + inctTable
    ensures q[|q| - |condition| - 1..] == condition + ";"
  {
    QUERY_HEAD + inctTable + QUERY_WHERE + idField + QUERY_EQ + area.areaID + QUERY_TAIL + condition + ";"
  }

  /** The characters of `s` before its first apostrophe: what a SQL reader takes
      as the content of a literal opened just before `s`. */
  function UpToQuote(s: string): (r: string)
    ensures |r| <= |s| && r == s[..|r|]
  {
    if |s| == 0 || s[0] == '\'' then "" else [s[0]] + UpToQuote(s[1..])
  }

  lemma {:induction false} UpToQuoteAppend(a: string, b: string)
    ensures '\'' !in a ==> UpToQuote(a + b) == a + UpToQuote(b)
    ensures '\'' in a ==> |UpToQuote(a + b)| < |a|
  {
    if |a| > 0 {
      assert (a + b)[0] == a[0];
      assert (a + b)[1..] == a[1..] + b;
      UpToQuoteAppend(a[1..], b);
      if a[0] != '\'' && '\'' in a {
        assert '\'' in a[1..];
      }
    } else {
      assert a + b == b;
    }
  }

  /** Reading the literal back out of the query gives the area id exactly when
      the id contains no apostrophe; otherwise the literal ends early. */
  lemma IncidentQueryQuotesAreaId(area: PoliceArea, inctTable: string, idField: string, condition: string)
    ensures var q := GetIncidentQuery(area, inctTable, idField, condition);
            var k := |QUERY_HEAD + inctTable + QUERY_WHERE + idField + QUERY_EQ|;
            k <= |q| && (UpToQuote(q[k..]) == area.areaID <==> '\'' !in area.areaID)
  {
    var q := GetIncidentQuery(area, inctTable, idField, condition);
    var pre := QUERY_HEAD + inctTable + QUERY_WHERE + idField + QUERY_EQ;
    var post := QUERY_TAIL + condition + ";";
    assert q == pre + (area.areaID + post);
    assert q[|pre|..] == area.areaID + post;
    UpToQuoteAppend(area.areaID, post);
    assert UpToQuote(post) == "";
  }
}
