/** The handles that uthash embeds in its elements, and the list they form in application order. */
module UtHandles {

  /** A hash handle together with the element it is embedded in. hashv is the hash value of the key. */
  class Handle<K(==), V> {
    const key: K
    const elt: V
    const hashv: nat
    var prev: Handle?<K, V>
    var next: Handle?<K, V>
    var hhPrev: Handle?<K, V>
    var hhNext: Handle?<K, V>

    constructor (key: K, elt: V, hashv: nat)
      ensures this.key == key && this.elt == elt && this.hashv == hashv
    {
      this.key, this.elt, this.hashv := key, elt, hashv;
      prev, next, hhPrev, hhNext := null, null, null, null;
    }
  }

  function First<K, V>(s: seq<Handle<K, V>>): Handle?<K, V> { if s == [] then null else s[0] }

  /** The application-order list. */
  ghost predicate AppLinked<K, V>(s: seq<Handle<K, V>>)
    reads s`prev, s`next
  {
    && (forall i {:trigger s[i].prev} :: 0 <= i < |s| ==> s[i].prev == if i == 0 then null else s[i - 1])
    && (forall i {:trigger s[i].next} :: 0 <= i < |s| ==> s[i].next == if i + 1 < |s| then s[i + 1] else null)
  }
}
