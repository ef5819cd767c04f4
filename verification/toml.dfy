/** The part of a TOML document the manifest rewriter reads and writes. Formatting is not modelled. */
module Toml {
  import opened Wrappers

  /** A TOML value: strings, arrays and inline tables matter here; every other kind is a `Scalar`. */
  datatype Value =
    | Str(s: string)
    | Array(elems: seq<Value>)
    | InlineTable(fields: map<string, Value>)
    | Scalar(repr: string)

  /** A TOML item: a value, a block (`[header]`) table, or an array of tables. */
  datatype Item =
    | ValueItem(value: Value)
    | Table(entries: map<string, Item>)
    | ArrayOfTables(tables: seq<map<string, Item>>)

  /** A whole manifest: the root table. */
  type Document = map<string, Item>

  /** `Value::as_str`. */
  function ValueStr(v: Value): (r: Option<string>)
    ensures r.Some? <==> v.Str?
    ensures r.Some? ==> v == Str(r.value)
  {
    if v.Str? then Some(v.s) else None
  }

  /** `Item::as_str`: only a value item holding a string is one. */
  function ItemStr(item: Item): (r: Option<string>)
    ensures r.Some? <==> item.ValueItem? && item.value.Str?
    ensures r.Some? ==> item == ValueItem(Str(r.value))
  {
    if item.ValueItem? then ValueStr(item.value) else None
  }

  /** A dependency declaration, by the three forms the rewriter distinguishes:
      `foo = "1.0"`, `foo = { ... }`, a `[dependencies.foo]` table, and anything else. */
  datatype Entry =
    | Shorthand(version: string)
    | Inline(fields: map<string, Value>)
    | Block(entries: map<string, Item>)
    | Other(item: Item)

  /** Items that take one of the three declaration forms. */
  predicate IsDeclaration(item: Item)
  {
    item.Table? || (item.ValueItem? && (item.value.Str? || item.value.InlineTable?))
  }

  /** Entries as `EntryOf` produces them: `Other` only for items of no declaration form. */
  predicate Canonical(e: Entry)
  {
    e.Other? ==> !IsDeclaration(e.item)
  }

  function ItemOf(e: Entry): Item
  {
    match e
    case Shorthand(v) => ValueItem(Str(v))
    case Inline(t) => ValueItem(InlineTable(t))
    case Block(t) => Table(t)
    case Other(item) => item
  }

  /** The `match dep_value` of the rewriter: classify an item by its declaration form. */
  function EntryOf(item: Item): (e: Entry)
    ensures Canonical(e)
    ensures ItemOf(e) == item
  {
    match item
    case ValueItem(Str(v)) => Shorthand(v)
    case ValueItem(InlineTable(t)) => Inline(t)
    case Table(t) => Block(t)
    case _ => Other(item)
  }

  lemma EntryOfItemOf(e: Entry)
    requires Canonical(e)
    ensures EntryOf(ItemOf(e)) == e
  {
  }

  /** The entry's field `key` seen as an item, whichever table form holds it; a shorthand has none. */
  function Field(e: Entry, key: string): (r: Option<Item>)
    ensures r.Some? ==> e.Inline? || e.Block?
    ensures e.Inline? ==> (r.Some? <==> key in e.fields)
    ensures e.Block? ==> (r.Some? <==> key in e.entries)
  {
    match e
    case Inline(t) => if key in t then Some(ValueItem(t[key])) else None
    case Block(t) => if key in t then Some(t[key]) else None
    case _ => None
  }

  /** Two table entries of the same form with the same fields are the same entry. */
  lemma FieldsDetermineEntry(a: Entry, b: Entry)
    requires (a.Inline? && b.Inline?) || (a.Block? && b.Block?)
    requires forall k :: Field(a, k) == Field(b, k)
    ensures a == b
  {
    if a.Inline? {
      forall k | k in a.fields
        ensures k in b.fields && a.fields[k] == b.fields[k]
      {
        assert Field(a, k) == Field(b, k);
      }
      forall k | k in b.fields
        ensures k in a.fields
      {
        assert Field(a, k) == Field(b, k);
      }
      assert a.fields == b.fields;
    } else {
      forall k | k in a.entries
        ensures k in b.entries && a.entries[k] == b.entries[k]
      {
        assert Field(a, k) == Field(b, k);
      }
      forall k | k in b.entries
        ensures k in a.entries
      {
        assert Field(a, k) == Field(b, k);
      }
      assert a.entries == b.entries;
    }
  }
}
