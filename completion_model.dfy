/** The part of a completion model the builders use: a list of categories, each
    holding rows of (name, description, misc) in the order they were added.
    Column widths, sorting, filtering and Qt's index navigation are not modelled. */
module CompletionModels {

  /** One completion row. A column the builder does not fill is "". */
  datatype Item = Item(name: string, desc: string, misc: string)

  datatype Category = Category(title: string, items: seq<Item>)

  class CompletionModel {
    var categories: seq<Category>

    constructor ()
      ensures categories == []
    {
      categories := [];
    }

    /** new_category: appends an empty category and returns its position. */
    method NewCategory(title: string) returns (cat: nat)
      modifies this
      ensures cat == |old(categories)|
      ensures categories == old(categories) + [Category(title, [])]
    {
      cat := |categories|;
      categories := categories + [Category(title, [])];
    }

    /** new_item: appends a row to an existing category; the others are unchanged. */
    method NewItem(cat: nat, item: Item)
      requires cat < |categories|
      modifies this
      ensures categories == old(categories)[cat := Category(old(categories)[cat].title, old(categories)[cat].items + [item])]
    {
      var c := categories[cat];
      categories := categories[cat := Category(c.title, c.items + [item])];
    }
  }
}
