/**
 * The JavaScript values the combiner handles: plain objects with ordered
 * own keys, module export objects whose properties are functions or data,
 * and the global state a wrapped selector reads its slice from.
 */
module Objects {

  datatype Option<T> = None | Some(value: T)

  /** A JavaScript data value, as far as the combiner or a caller's state tree needs one. */
  datatype Value =
    | Undefined
    | Null
    | Boolean(b: bool)
    | Number(n: int)
    | Text(s: string)
    | Record(fields: map<string, Value>)

  /**
   * A user-supplied reducer or selector: state (or slice) and the remaining
   * call arguments in, a value out. Its behaviour is left uninterpreted.
   */
  type Callable = (Value, seq<Value>) -> Value

  /** One property of a module export object; `Function?` is `typeof v === 'function'`. */
  datatype Export = Function(call: Callable) | Data(value: Value)

  /**
   * A plain object: its own enumerable keys in `Object.keys` order and the
   * value stored under each key.
   */
  datatype Obj<V> = Obj(keys: seq<string>, props: map<string, V>) {

    /** Keys are listed once each, and exactly the keys that have a value are listed. */
    ghost predicate Valid() {
      && Distinct(keys)
      && (forall k :: k in props <==> k in keys)
    }
  }

  /** No key is listed twice: the last one is not among the others, and so on down. */
  predicate Distinct(keys: seq<string>) {
    |keys| == 0 || (keys[|keys| - 1] !in keys[..|keys| - 1] && Distinct(keys[..|keys| - 1]))
  }

  /** In a list without repeats, each key differs from every key before it. */
  lemma {:induction false} DistinctAt(keys: seq<string>, j: nat)
    requires Distinct(keys) && j < |keys|
    ensures keys[j] !in keys[..j]
    decreases |keys|
  {
    var n := |keys|;
    if j < n - 1 {
      DistinctAt(keys[..n - 1], j);
      assert keys[..n - 1][..j] == keys[..j];
    }
  }

  /** A prefix one longer is the shorter prefix followed by the next element. */
  lemma TakeOneMore<T>(xs: seq<T>, j: nat)
    requires 0 < j <= |xs|
    ensures xs[..j] == xs[..j - 1] + [xs[j - 1]]
  {
  }

  /** In a list without repeats, keys at different positions differ. */
  lemma DistinctDiffer(keys: seq<string>, a: nat, b: nat)
    requires Distinct(keys) && a < |keys| && b < |keys| && a != b
    ensures keys[a] != keys[b]
  {
    if a < b {
      DistinctAt(keys, b);
      assert keys[a] in keys[..b];
    } else {
      DistinctAt(keys, a);
      assert keys[b] in keys[..a];
    }
  }

  /** A state segment's module export object (`import * as x from './x'`). */
  type Segment = Obj<Export>

  /** Reading `seg[key]`: an absent property reads as `undefined`. */
  function Property(seg: Segment, key: string): Export {
    if key in seg.props then seg.props[key] else Data(Undefined)
  }

  /**
   * Reading `globalState[name]`: `None` where JavaScript throws a TypeError
   * (the state is `undefined` or `null`), otherwise the field, or `undefined`
   * when there is none.
   */
  function Slice(global: Value, name: string): Option<Value> {
    match global
    case Undefined => None
    case Null => None
    case Record(fields) => Some(if name in fields then fields[name] else Undefined)
    case _ => Some(Undefined)
  }
}
