/**
 * The `Tag` annotation of an outline entry: `@name` or `@name(payload)`.
 */
module Tags {
  import opened Wrappers

  datatype Tag = BareTag(tagName: string) | PayloadTag(tagName: string, payloadText: string)
  {
    /** The tag's name, whichever form it has. */
    function Name(): (r: string)
      ensures r == tagName
    {
      match this
      case BareTag(n) => n
      case PayloadTag(n, _) => n
    }

    /** The payload, absent exactly for a bare tag. */
    function Payload(): (r: Option<string>)
      ensures r.None? <==> BareTag?
      ensures r.Some? ==> r.value == payloadText
    {
      match this
      case BareTag(_) => None
      case PayloadTag(_, p) => Some(p)
    }

    /** The display form, `@name` or `@name(payload)`. */
    function ToString(): string {
      match this
      case BareTag(n) => "@" + n
      case PayloadTag(n, p) => "@" + n + "(" + p + ")"
    }
  }

  /** The display form starts with `@` and the name, then the payload in parentheses, if any. */
  lemma ToStringShape(t: Tag)
    ensures |t.ToString()| >= 1 + |t.tagName| && t.ToString()[0] == '@'
    ensures t.ToString()[1..1 + |t.tagName|] == t.tagName
    ensures t.BareTag? ==> |t.ToString()| == 1 + |t.tagName|
    ensures t.PayloadTag? ==> t.ToString()[1 + |t.tagName|..] == "(" + t.payloadText + ")"
  {
  }

  /** `Tag(name, payload:)`: a missing or empty payload gives a bare tag. */
  function MakeTag(name: string, payload: Option<string>): (r: Tag)
    ensures r.Name() == name
    ensures r.BareTag? <==> (payload.None? || payload.value == "")
    ensures r.PayloadTag? ==> r.Payload() == payload
  {
    if payload.None? || payload.value == "" then BareTag(name)
    else PayloadTag(name, payload.value)
  }

  /** Building a tag from its own accessors gives it back, unless its payload is empty. */
  lemma MakeTagFromAccessors(t: Tag)
    requires t.PayloadTag? ==> t.payloadText != ""
    ensures MakeTag(t.Name(), t.Payload()) == t
  {
  }
}
