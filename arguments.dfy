/** The two command-line validators: the intensity range check and the colour
    list check. Parsing the text into an integer and the argparse wiring are
    not part of this model. */
module Arguments {
  import opened Palette

  /** The exceptions the validators raise. */
  datatype ArgError =
    | ArgumentTypeError          // intensity outside [minimum, maximum]
    | InvalidColor(name: string) // the first colour name that is not a key of COLORS

  datatype Result<T> = Ok(value: T) | Err(error: ArgError)

  /** range_type on an already parsed integer: the value itself when it lies
      in [minimum, maximum], an ArgumentTypeError otherwise. */
  function RangeType(value: int, minimum: int := 1, maximum: int := 10): (r: Result<int>)
    ensures r.Ok? <==> minimum <= value <= maximum
    ensures r.Ok? ==> r.value == value
    ensures r.Err? ==> r.error == ArgumentTypeError
  {
    if minimum <= value <= maximum then Ok(value) else Err(ArgumentTypeError)
  }

  /** Every name of the list is a key of COLORS. */
  predicate AllColorNames(values: seq<string>) {
    forall k :: 0 <= k < |values| ==> values[k] in COLORS
  }

  /** ValidateColors: scans the chosen names in order and raises on the first
      one that is not a key of COLORS; otherwise the list is stored unchanged. */
  function ValidateColors(values: seq<string>): (r: Result<seq<string>>)
    ensures r.Ok? <==> AllColorNames(values)
    ensures r.Ok? ==> r.value == values
    ensures r.Err? ==> exists k :: 0 <= k < |values| && r.error == InvalidColor(values[k])
                                   && values[k] !in COLORS && AllColorNames(values[..k])
  {
    if values == [] then Ok(values)
    else if values[0] !in COLORS then
      assert AllColorNames(values[..0]);
      Err(InvalidColor(values[0]))
    else
      match ValidateColors(values[1..])
      case Ok(_) => Ok(values)
      case Err(e) =>
        ghost var k :| 0 <= k < |values[1..]| && e == InvalidColor(values[1..][k])
                       && values[1..][k] !in COLORS && AllColorNames(values[1..][..k]);
        assert values[..k + 1] == [values[0]] + values[1..][..k];
        Err(e)
  }

  /** The default colour list, ["blue", "b_blue"], passes the check. */
  lemma DefaultColorsValid()
    ensures ValidateColors(["blue", "b_blue"]) == Ok(["blue", "b_blue"])
  {
  }

  /** A name that is not in the table, such as "purple", is rejected by name. */
  lemma PurpleRejected(values: seq<string>)
    requires AllColorNames(values)
    ensures ValidateColors(values + ["purple"]) == Err(InvalidColor("purple"))
  {
    var all := values + ["purple"];
    var r := ValidateColors(all);
    assert !AllColorNames(all) by { assert all[|values|] == "purple"; }
    var k :| 0 <= k < |all| && r.error == InvalidColor(all[k]) && all[k] !in COLORS && AllColorNames(all[..k]);
  }
}
