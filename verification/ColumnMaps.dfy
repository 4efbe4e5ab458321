/** The `column_name` mapping of local columns to remote ones. */
module ColumnMaps {
  import opened JsStrings

  type ColumnMap = map<JsString, JsString>

  /** `(columnMap && columnMap[local]) || local`: an absent or empty mapping means the name itself. */
  function RemoteName(m: ColumnMap, local: JsString): JsString {
    if local in m && m[local] != [] then m[local] else local
  }

  /** The remote name of a column: what it is mapped to, unless that is absent or empty. */
  predicate MapsTo(m: ColumnMap, local: JsString, remote: JsString) {
    if local in m && |m[local]| > 0 then remote == m[local] else remote == local
  }

  lemma RemoteNameIs(m: ColumnMap, local: JsString, remote: JsString)
    ensures remote == RemoteName(m, local) <==> MapsTo(m, local, remote)
  {
  }
}
