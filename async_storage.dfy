/**
 * The external key-value store the component persists into (React Native's
 * AsyncStorage). Only its observable contract is modelled: a map from keys
 * to text, and a fault oracle, the set of keys whose getItem and setItem
 * calls reject.
 */
module AsyncStorage {

  /** What getItem settles to. */
  datatype Read = Item(text: string) | Missing | Rejected

  /** getItem(key) against the store contents `data`. */
  function Lookup(data: map<string, string>, failing: set<string>, key: string): (r: Read)
    ensures r.Rejected? <==> key in failing
    ensures r.Item? ==> key in data && r.text == data[key]
    ensures key !in failing ==> (r.Item? <==> key in data)
  {
    if key in failing then Rejected
    else if key in data then Item(data[key])
    else Missing
  }

  /** The store contents after setItem(key, text); a rejected call changes nothing. */
  function Written(data: map<string, string>, failing: set<string>, key: string, text: string): (r: map<string, string>)
    ensures key !in failing ==> Lookup(r, failing, key) == Item(text)
    ensures forall other :: other != key ==> Lookup(r, failing, other) == Lookup(data, failing, other)
  {
    if key in failing then data else data[key := text]
  }

  class Store {
    var data: map<string, string>
    var failing: set<string>

    constructor (data: map<string, string>, failing: set<string>)
      ensures this.data == data && this.failing == failing
    {
      this.data := data;
      this.failing := failing;
    }

    method GetItem(key: string) returns (r: Read)
      ensures r == Lookup(data, failing, key)
    {
      if key in failing {
        r := Rejected;
      } else if key in data {
        r := Item(data[key]);
      } else {
        r := Missing;
      }
    }

    method SetItem(key: string, text: string) returns (ok: bool)
      modifies this`data
      ensures ok == (key !in failing)
      ensures data == Written(old(data), failing, key, text)
    {
      ok := key !in failing;
      if ok {
        data := data[key := text];
      }
    }
  }
}
