/** Shared vocabulary: optional values, results, and workspace paths. */
module Common {

  datatype Option<+T> = None | Some(value: T) {
    function GetOr(default: T): T {
      if Some? then value else default
    }
  }

  datatype Result<+T, +E> = Ok(value: T) | Err(error: E)

  function Get<K, V>(m: map<K, V>, k: K): Option<V> {
    if k in m then Some(m[k]) else None
  }

  /** `name` is `base`, or `base` followed by a separator and more. */
  predicate Under(base: string, name: string, sep: char) {
    name == base || base + [sep] <= name
  }

  /** `path` is `prefix` itself or lies below it. */
  predicate Covers(prefix: string, path: string) {
    Under(prefix, path, '/')
  }

  /** Reading one more item of a page, behind what was read before it. */
  lemma ReadOne<T>(before: seq<T>, items: seq<T>, j: nat)
    requires j < |items|
    ensures before + items[..j] + [items[j]] == before + items[..j + 1] <= before + items
  {
  }

  /** The first `n` pages, one after the other. */
  function Joined<T>(pages: seq<seq<T>>, n: nat): seq<T>
    requires n <= |pages|
  {
    if n == 0 then [] else Joined(pages, n - 1) + pages[n - 1]
  }
}
