/**
 * The mirror's key: a value-equality struct of (type, key, version) whose
 * `ToString` is `"{type}.{version}.{key}"`. In Dafny `type` is a keyword, so the
 * fields are called `kind`, `name` and `version`.
 */
module Keys {
  import opened Wrappers
  import opened Decimal

  /** Two keys are the same mirror entry exactly when all three fields are equal. */
  datatype Key = Key(kind: string, name: string, version: Int32)

  /** The `type` value of the messages that only keep the connection alive. */
  const Keepalive: string := "keepalive"

  /** `Key.ToString()`: kind, version and name joined by dots. */
  function Text(k: Key): (s: string)
    ensures |s| == |k.kind| + |Render(k.version)| + |k.name| + 2
    ensures s[..|k.kind|] == k.kind && s[|k.kind|] == '.'
    ensures s[|s| - |k.name|..] == k.name && s[|s| - |k.name| - 1] == '.'
  {
    k.kind + "." + Render(k.version) + "." + k.name
  }

  /** Position of the first `c` in `s`, if any. */
  function IndexOf(s: string, c: char): (r: Option<nat>)
    ensures r.Some? ==> r.value < |s| && s[r.value] == c
    ensures r.Some? ==> forall i :: 0 <= i < r.value ==> s[i] != c
    ensures r.None? ==> forall i :: 0 <= i < |s| ==> s[i] != c
  {
    if s == [] then None
    else if s[0] == c then Some(0)
    else match IndexOf(s[1..], c)
      case None => None
      case Some(i) => Some(i + 1)
  }

  /** Reads a rendering back: kind up to the first dot, version up to the next, name after it. */
  function FromText(s: string): (r: Option<Key>)
  {
    match IndexOf(s, '.')
    case None => None
    case Some(i) =>
      var rest := s[i + 1..];
      match IndexOf(rest, '.')
      case None => None
      case Some(j) =>
        match Parse(rest[..j])
        case None => None
        case Some(v) => Some(Key(s[..i], rest[j + 1..], v))
  }

  lemma IndexOfAt(s: string, c: char, i: nat)
    requires i < |s| && s[i] == c
    requires forall j :: 0 <= j < i ==> s[j] != c
    ensures IndexOf(s, c) == Some(i)
  {
  }

  /**
   * The rendering identifies the key whenever the kind has no dot in it: the
   * version's digits never contain one, so the first two dots are the separators.
   */
  lemma TextRoundTrip(k: Key)
    requires forall i :: 0 <= i < |k.kind| ==> k.kind[i] != '.'
    ensures FromText(Text(k)) == Some(k)
  {
    var v := Render(k.version);
    var rest := v + "." + k.name;
    var s := k.kind + "." + rest;
    assert s == Text(k);
    assert s[|k.kind|] == '.';
    assert forall j :: 0 <= j < |k.kind| ==> s[j] == k.kind[j];
    IndexOfAt(s, '.', |k.kind|);
    assert s[|k.kind| + 1..] == rest;
    assert rest[|v|] == '.';
    assert forall j :: 0 <= j < |v| ==> rest[j] == v[j];
    IndexOfAt(rest, '.', |v|);
    assert rest[..|v|] == v;
    assert rest[|v| + 1..] == k.name;
    assert s[..|k.kind|] == k.kind;
    ParseRender(k.version);
  }

  /** With a dot inside the kind the rendering is ambiguous; it is only used for logging. */
  lemma TextNotInjective()
    ensures Key("a.1", "b", 2) != Key("a", "2.b", 1)
    ensures Text(Key("a.1", "b", 2)) == Text(Key("a", "2.b", 1))
  {
  }
}
