/**
 * The status-code table of src/HCI/Error.php: an error carries the status
 * code, in upper case, and its text.
 */
module HciErrors {
  import opened Text

  datatype HciError = HciError(code: string, text: string)

  /** The known codes and their texts; `NA` marks a command that got no reply. */
  const ErrorTexts: map<string, string> := map[
    "NA" := "No response",
    "0C" := "Command Disallowed",
    "11" := "Unsupported Feature or Parameter Value",
    "12" := "Invalid HCI Command Parameters"
  ]

  /** The code stored for a raw status: `strtoupper($code) ?: 'UN'`. */
  function NormalCode(code: string): (r: string)
    ensures !Falsy(r)
    ensures !Falsy(ToUpper(code)) ==> r == ToUpper(code)
    ensures Falsy(code) ==> r == "UN"
  {
    var upper := ToUpper(code);
    if Falsy(upper) then "UN" else upper
  }

  /** The constructor: the normalised code and its text, `Unknown` when the table has none. */
  function NewError(code: string): (e: HciError)
    ensures e.code == NormalCode(code)
    ensures e.code in ErrorTexts ==> e.text == ErrorTexts[e.code]
    ensures e.code !in ErrorTexts ==> e.text == "Unknown"
  {
    var c := NormalCode(code);
    HciError(c, if c in ErrorTexts then ErrorTexts[c] else "Unknown")
  }

  /** The code is read without regard to case. */
  lemma NewErrorIgnoresCase(code: string)
    ensures NewError(ToLower(code)) == NewError(code)
    ensures NewError(ToUpper(code)) == NewError(code)
  {
    UpperOfLower(code);
  }

  /** A code has a text of its own exactly when its upper-case spelling is in the table. */
  lemma KnownCodes(code: string)
    ensures NewError(code).text != "Unknown" <==> ToUpper(code) in ErrorTexts
  {
    if ToUpper(code) in ErrorTexts {
      assert !Falsy(ToUpper(code));
    }
  }

  /** A lower-case `0c` is Command Disallowed, and an empty code is `UN`, Unknown. */
  lemma TableExamples()
    ensures NewError("0c") == HciError("0C", "Command Disallowed")
    ensures NewError("") == HciError("UN", "Unknown")
    ensures NewError("na").text == "No response"
  {
    assert ToUpper("0c") == "0C";
    assert ToUpper("na") == "NA";
  }
}
