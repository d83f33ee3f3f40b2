/** keyberon's layout event, shared by the scanner, the chording engine and
    the key tasks: a press or release of the key at (row, column). */
module KeyEvent {

  import opened Util

  type Key = (u8, u8)

  datatype Event = Press(row: u8, col: u8) | Release(row: u8, col: u8)
  {
    function Coord(): Key
    {
      (row, col)
    }
  }

  function Presses(keys: seq<Key>): (es: seq<Event>)
    ensures |es| == |keys|
    ensures forall i :: 0 <= i < |keys| ==> es[i] == Press(keys[i].0, keys[i].1)
  {
    if keys == [] then [] else [Press(keys[0].0, keys[0].1)] + Presses(keys[1..])
  }

  function Releases(keys: seq<Key>): (es: seq<Event>)
    ensures |es| == |keys|
    ensures forall i :: 0 <= i < |keys| ==> es[i] == Release(keys[i].0, keys[i].1)
  {
    if keys == [] then [] else [Release(keys[0].0, keys[0].1)] + Releases(keys[1..])
  }
}
