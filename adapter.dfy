/**
 * The adapter record of src/Adapter.php: an interface name and a Bluetooth
 * device address, stored in a fixed case.
 */
module Adapters {
  import opened Text

  datatype Adapter = Adapter(hci: string, mac: string)

  /** The constructor: the interface name is stored lower-case and the address upper-case. */
  function NewAdapter(hci: string, mac: string): (r: Adapter)
    ensures |r.hci| == |hci| && |r.mac| == |mac|
    ensures forall i :: 0 <= i < |hci| ==> r.hci[i] == LowerChar(hci[i])
    ensures forall i :: 0 <= i < |mac| ==> r.mac[i] == UpperChar(mac[i])
  {
    Adapter(ToLower(hci), ToUpper(mac))
  }

  /** The stored fields are already in normal form: rebuilding an adapter from them changes nothing. */
  lemma NewAdapterNormalForm(hci: string, mac: string)
    ensures var a := NewAdapter(hci, mac); NewAdapter(a.hci, a.mac) == a
  {
    LowerOfUpper(hci);
    UpperOfLower(mac);
  }

  /** Names and addresses that differ only in case make the same adapter. */
  lemma NewAdapterIgnoresCase(hci: string, mac: string)
    ensures NewAdapter(hci, mac) == NewAdapter(ToUpper(hci), ToLower(mac))
  {
    LowerOfUpper(hci);
    UpperOfLower(mac);
  }
}
