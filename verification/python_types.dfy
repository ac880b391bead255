/** The table from JSON Schema type names to the Python type names a tool parameter declares. */
module PythonTypes {

  /** The four JSON Schema type names the table renames. */
  const Renamed: set<string> := {"string", "number", "object", "array"}

  /**
   `convertToPythonType`: string, number, object and array become str, float, Dict and
   List; every other name (boolean among them) is returned as it is. It never fails.
   */
  function ConvertToPythonType(ty: string): (r: string)
    ensures ty in Renamed <==> r != ty
    ensures ty in Renamed ==> r in {"str", "float", "Dict", "List"}
  {
    match ty
    case "string" => "str"
    case "number" => "float"
    case "object" => "Dict"
    case "array" => "List"
    case _ => ty
  }

  /** Converting twice is converting once: no Python name is itself a renamed schema name. */
  lemma ConvertIdempotent(ty: string)
    ensures ConvertToPythonType(ConvertToPythonType(ty)) == ConvertToPythonType(ty)
  {
    var r := ConvertToPythonType(ty);
    if ty in Renamed {
      assert r !in Renamed;
    }
  }

  /**
   The table loses information: "string" and "str" both come out as "str", so the
   schema type cannot be read back from a parameter's type.
   */
  lemma ConvertNotInjective()
    ensures exists a, b :: a != b && ConvertToPythonType(a) == ConvertToPythonType(b)
  {
    assert ConvertToPythonType("string") == ConvertToPythonType("str");
  }
}
