/** The exception a failed bundling raises: a message and optional
    details, reported together. */
module BundleExceptions {
  import opened Wrappers
  import opened Strings

  datatype BundleException = BundleException(message: string, details: string)

  /** The two-argument constructor: null details are stored as "". */
  function New(message: string, details: Option<string>): (e: BundleException)
    ensures e.message == message
    ensures e.details == (if details.Some? then details.value else "")
  {
    BundleException(message, details.GetOr(""))
  }

  /** The one-argument constructor. */
  function Simple(message: string): (e: BundleException)
    ensures e.details == ""
  {
    New(message, Some(""))
  }

  /** With no details given, null details and empty details are the same
      exception. */
  lemma SimpleIsNullDetails(message: string)
    ensures Simple(message) == New(message, None) == New(message, Some(""))
  {
  }

  /** `getMessage`: the message alone, or the message, a colon, a line
      break and the details. */
  function GetMessage(e: BundleException): (m: string)
    ensures StartsWith(m, e.message)
    ensures |m| == |e.message| <==> e.details == ""
    ensures e.details != "" ==> m[|e.message|..] == ":\n" + e.details
  {
    if e.details == "" then e.message else e.message + ":\n" + e.details
  }

  /** The reported text loses nothing: for a given message, different
      details give different texts. */
  lemma GetMessageInjective(e1: BundleException, e2: BundleException)
    requires e1.message == e2.message && GetMessage(e1) == GetMessage(e2)
    ensures e1 == e2
  {
    if e1.details != "" && e2.details != "" {
      assert ":\n" + e1.details == GetMessage(e1)[|e1.message|..] == ":\n" + e2.details;
      assert e1.details == (":\n" + e1.details)[2..];
    }
  }
}
