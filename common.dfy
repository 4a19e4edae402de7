/** Values shared by both versions of the board: optional form fields, Python
    truthiness of a string field, the username default and the newest-first listing. */
module Common {

  /** A form field, query argument or session entry that may be absent (Python `None`). */
  datatype Option<+T> = None | Some(value: T)

  /** Python truthiness of an optional string: present and non-empty. */
  predicate Truthy(v: Option<string>) {
    v.Some? && v.value != []
  }

  /** `dict.get(key, default)` on a form: the field when present, otherwise the default. */
  function GetOr(v: Option<string>, default: string): string {
    match v
    case Some(s) => s
    case None => default
  }

  /** The placeholder name stored for a post whose author left the name empty. */
  const Anonymous: string := "名無しさん"

  /** The stored username: `request.form.get('username', '名無しさん')` followed by
      `username if username else '名無しさん'`. */
  function DisplayName(username: Option<string>): (r: string)
    ensures r != []
    ensures Truthy(username) ==> r == username.value
    ensures !Truthy(username) ==> r == Anonymous
  {
    var u := GetOr(username, Anonymous);
    if u != [] then u else Anonymous
  }

  /** Python's `reversed(posts)`: the stored records, last appended first. */
  function NewestFirst<T>(s: seq<T>): (r: seq<T>)
    ensures |r| == |s|
    ensures forall i :: 0 <= i < |s| ==> r[i] == s[|s| - 1 - i]
  {
    if s == [] then [] else NewestFirst(s[1..]) + [s[0]]
  }
}
