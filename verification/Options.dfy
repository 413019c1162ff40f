/** Results that may be missing, and positions of keys in lists. */
module Options {

  datatype Option<+T> = None | Some(value: T)

  /** The first position of a key, or the length of the list. */
  function FirstAt(keys: seq<int>, key: int): (k: nat)
    ensures k <= |keys| && (k < |keys| ==> keys[k] == key)
    ensures forall i :: 0 <= i < k ==> keys[i] != key
  {
    if keys == [] || keys[0] == key then 0 else FirstAt(keys[1..], key) + 1
  }

  /** The list without the element at k, the whole list when there is none. */
  function Dropped<T>(s: seq<T>, k: nat): seq<T> {
    if k < |s| then s[..k] + s[k + 1..] else s
  }
}
