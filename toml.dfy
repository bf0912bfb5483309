/**
  An abstract TOML v1.0.0 document as a format-preserving editor keeps it: an
  ordered map from keys to items. Formatting (comments, whitespace, decor) is
  not represented in a table; the workspace model's rendering function takes
  the text that was read together with the edited table, which is where that
  formatting comes from.
 */
module Toml {
  import opened Wrappers

  /** The values TOML allows on the right of `key = ...`. */
  datatype TomlValue =
    | Bool(b: bool)
    | Str(s: string)
    | Integer(i: int)
    | Float(repr: string)
    | Datetime(repr: string)
    | Array(elements: seq<TomlValue>)
    | InlineTable(pairs: Table)

  /**
    What a key holds: a value, a table, or an array of `[[header]]` tables.
    `StandardTable` is every table that is not inline: one opened by a
    `[header]`, one implied by a `[header.sub]` alone, or one built from
    dotted keys. An inline table `{ ... }` is a value.
   */
  datatype Item =
    | Value(v: TomlValue)
    | StandardTable(t: Table)
    | ArrayOfTables(tables: seq<Table>)

  /** An ordered map: `keys` gives the document order of the keys of `items`. */
  datatype Table = Table(keys: seq<string>, items: map<string, Item>)

  const EmptyTable := Table([], map[])

  /** A table as the parser builds it: every key once, and exactly the keys that hold an item. */
  ghost predicate Valid(t: Table) {
    && (forall i, j :: 0 <= i < j < |t.keys| ==> t.keys[i] != t.keys[j])
    && (forall k :: k in t.items <==> k in t.keys)
  }

  /** Looks a key up. */
  function Get(t: Table, key: string): (r: Option<Item>)
    ensures r.Some? <==> key in t.items
    ensures Valid(t) ==> (r.Some? <==> key in t.keys)
  {
    if key in t.items then Some(t.items[key]) else None
  }

  /**
    Stores `item` under `key`: an existing key keeps its place, a new key is
    appended after all the others.
   */
  function Insert(t: Table, key: string, item: Item): (r: Table)
    ensures Get(r, key) == Some(item)
    ensures forall k :: k != key ==> Get(r, k) == Get(t, k)
    ensures key in t.items ==> r.keys == t.keys
    ensures key !in t.items ==> r.keys == t.keys + [key]
  {
    Table(if key in t.items then t.keys else t.keys + [key], t.items[key := item])
  }

  /** Insertion keeps a table valid. */
  lemma LemmaInsertValid(t: Table, key: string, item: Item)
    requires Valid(t)
    ensures Valid(Insert(t, key, item))
  {
    var r := Insert(t, key, item);
    if key !in t.items {
      forall i, j | 0 <= i < j < |r.keys| ensures r.keys[i] != r.keys[j] {
        if j == |t.keys| {
          assert r.keys[i] == t.keys[i];
        }
      }
    }
  }

}
