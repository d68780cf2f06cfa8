/** `reportOnError` of the Elasticsearch plugin: the text a failed client
    call leaves in the monitor's status and on the error console. */
module ErrorReport {
  import opened Strings

  /** The prefix Elasticsearch errors may carry, which the report drops. */
  const Marker := "Error :"

  /** The message as reported: the first `Error :` in it removed, nothing
      else touched. */
  function ErrorText(message: string): (text: string)
    ensures Contains(message, Marker) ==> |text| == |message| - |Marker|
    ensures !Contains(message, Marker) ==> text == message
  {
    ReplaceFirst(message, Marker, "")
  }

  /** The monitor status after a failure. */
  function FailureStatus(message: string): string {
    "Error: " + ErrorText(message)
  }

  /** The line written to the error console after a failure. */
  function ConsoleLine(message: string): string {
    "Elasticsearch error: " + ErrorText(message)
  }

  /** A message without the marker is reported as it is. */
  lemma UnmarkedKept(message: string)
    requires !Contains(message, Marker)
    ensures FailureStatus(message) == "Error: " + message
    ensures ConsoleLine(message) == "Elasticsearch error: " + message
  {
  }

  /** A message that starts with the marker is reported without it, the
      rest intact (a second marker further on included). */
  lemma LeadingMarkerDropped(message: string)
    requires |message| >= |Marker| && message[..|Marker|] == Marker
    ensures ErrorText(message) == message[|Marker|..]
    ensures FailureStatus(message) == "Error: " + message[|Marker|..]
  {
    assert OccursAt(message, Marker, 0);
    assert IndexOf(message, Marker) == 0;
  }

  /** Where the marker occurs first, the report cuts it out: what precedes
      and what follows it are kept, in order. */
  lemma FirstMarkerCut(message: string)
    requires Contains(message, Marker)
    ensures exists i ::
      && 0 <= i && i + |Marker| <= |message|
      && message[i..i + |Marker|] == Marker
      && (forall j :: 0 <= j < i ==> !OccursAt(message, Marker, j))
      && ErrorText(message) == message[..i] + message[i + |Marker|..]
  {
    var i := IndexOf(message, Marker);
    IndexOfFindsContained(message, Marker);
    assert message[..i] + "" + message[i + |Marker|..] == message[..i] + message[i + |Marker|..];
  }
}
