/** The two validators of the naming functions: the type check of all
    arguments and the delimiter check of one entity value. */
module Validation {
  import opened Values

  /** The characters that delimit a name: `-` between key and value, `_`
      between entities, `/` between path segments. */
  predicate IsDelimiter(c: char) {
    c == '-' || c == '_' || c == '/'
  }

  /** A value that can stand in a `key-value` entity. */
  predicate ValidLabel(val: string) {
    forall i :: 0 <= i < |val| ==> !IsDelimiter(val[i])
  }

  /** `_check_types`: every value is a string or `None`; otherwise a
      `ValueError` is raised. */
  function CheckTypes(vs: seq<Value>): (r: Result<()>)
    ensures r.Ok? <==> forall i :: 0 <= i < |vs| ==> IsStrOrNone(vs[i])
    ensures r.Err? ==> r.error == NotStringOrNone && r.error.Class() == ValueError
  {
    if |vs| == 0 then Ok(())
    else if !IsStrOrNone(vs[0]) then Err(NotStringOrNone)
    else CheckTypes(vs[1..])
  }

  /** `_check_key_val`: the pair comes back unchanged exactly when the value
      has no delimiter; otherwise a `ValueError` naming the pair. */
  function CheckKeyVal(key: string, val: string): (r: Result<(string, string)>)
    ensures r.Ok? <==> ValidLabel(val)
    ensures r.Ok? ==> r.value == (key, val)
    ensures r.Err? ==> r.error == ForbiddenCharacter(key, val) && r.error.Class() == ValueError
  {
    if '-' in val || '_' in val || '/' in val then Err(ForbiddenCharacter(key, val))
    else Ok((key, val))
  }
}
