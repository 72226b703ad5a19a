/**
 * The category JSON API (app_modules/categories.py): list, create, rename and
 * delete the current user's categories. A request body is the parsed JSON
 * value; its "name" is read with `data.get("name", "").strip()`, which raises
 * when the body is not an object or the value is not a string.
 */
module CategoryRoutes {
  import opened Wrappers
  import opened Strings
  import opened Json
  import opened Models
  import Seqs

  /** 200 {"status": "success"}, 400 {"error": "Name required"}, or an exception (500). */
  datatype Reply = Success | NameRequired | Crash

  /**
   * `data.get("name", "")` when it is a string; None when the body is not an
   * object (it has no `get`) or when `.strip()` would raise.
   */
  function NameField(body: Value): (r: Option<string>)
    ensures body.Object? && "name" !in body.fields ==> r == Some("")
    ensures r.None? <==> !body.Object? || ("name" in body.fields && !body.fields["name"].Str?)
    ensures r.Some? && body.Object? && "name" in body.fields ==> r.value == body.fields["name"].s
  {
    if !body.Object? then None
    else if "name" !in body.fields then Some("")
    else if body.fields["name"].Str? then Some(body.fields["name"].s)
    else None
  }

  /** The reply before any write: a crash, a refused blank name, or the stripped name to use. */
  function CheckName(body: Value): (r: Result)
    ensures r.Refused? && r.reply == Crash <==> NameField(body).None?
    ensures r.Refused? && r.reply == NameRequired <==> NameField(body).Some? && IsBlank(NameField(body).value)
    ensures r.Refused? ==> r.reply != Success
    ensures r.Named? ==> r.name != [] && Stripped(r.name) && r.name == Strip(NameField(body).value)
  {
    match NameField(body)
    case None => Refused(Crash)
    case Some(raw) =>
      var name := Strip(raw);
      if name == [] then Refused(NameRequired) else Named(name)
  }

  datatype Result = Refused(reply: Reply) | Named(name: string)

  /** api_get_categories: the user's categories ordered by name (CategoriesOf). */
  function ApiGetCategories(categories: seq<Category>, userId: int): (r: seq<Category>)
    ensures forall c :: c in r <==> c in categories && c.userId == userId
    ensures forall c :: multiset(r)[c] == if c.userId == userId then multiset(categories)[c] else 0
    ensures Seqs.SortedBy(r, CategoryBefore)
  {
    var r := CategoriesOf(categories, userId);
    Seqs.FilterMultiset(categories, (c: Category) => c.userId == userId);
    assert forall c :: c in r <==> c in multiset(r);
    r
  }

  /** api_create_category: a blank name is refused; otherwise the stripped name is inserted, duplicates allowed. */
  method ApiCreateCategory(store: Store, userId: int, body: Value) returns (reply: Reply)
    requires store.Valid()
    modifies store
    ensures store.Valid()
    ensures reply == Crash <==> NameField(body).None?
    ensures reply == NameRequired <==> NameField(body).Some? && IsBlank(NameField(body).value)
    ensures reply != Success ==> store.categories == old(store.categories) && store.nextCategoryId == old(store.nextCategoryId)
    ensures reply == Success ==>
      && store.categories == old(store.categories) + [Category(old(store.nextCategoryId), userId, Strip(NameField(body).value))]
      && store.nextCategoryId == old(store.nextCategoryId) + 1
    ensures store.users == old(store.users) && store.notes == old(store.notes)
    ensures store.nextUserId == old(store.nextUserId) && store.nextNoteId == old(store.nextNoteId)
  {
    var checked := CheckName(body);
    if checked.Refused? {
      return checked.reply;
    }
    var _ := store.CreateCategory(userId, checked.name);
    reply := Success;
  }

  /** api_rename_category: a blank name is refused; otherwise only the owned category is renamed, and success is reported either way. */
  method ApiRenameCategory(store: Store, catId: int, userId: int, body: Value) returns (reply: Reply)
    requires store.Valid()
    modifies store
    ensures store.Valid()
    ensures reply == Crash <==> NameField(body).None?
    ensures reply == NameRequired <==> NameField(body).Some? && IsBlank(NameField(body).value)
    ensures reply != Success ==> store.categories == old(store.categories)
    ensures reply == Success ==>
      store.categories == RenamedCategories(old(store.categories), catId, userId, Strip(NameField(body).value))
    ensures store.users == old(store.users) && store.notes == old(store.notes)
    ensures store.nextUserId == old(store.nextUserId) && store.nextCategoryId == old(store.nextCategoryId)
    ensures store.nextNoteId == old(store.nextNoteId)
  {
    var checked := CheckName(body);
    if checked.Refused? {
      return checked.reply;
    }
    store.RenameCategory(catId, userId, checked.name);
    reply := Success;
  }

  /** api_delete_category: only the owned category goes; notes keep its id. */
  method ApiDeleteCategory(store: Store, catId: int, userId: int) returns (reply: Reply)
    requires store.Valid()
    modifies store
    ensures store.Valid()
    ensures reply == Success
    ensures store.categories == DeletedCategories(old(store.categories), catId, userId)
    ensures store.notes == old(store.notes)
    ensures store.users == old(store.users)
    ensures store.nextUserId == old(store.nextUserId) && store.nextCategoryId == old(store.nextCategoryId)
    ensures store.nextNoteId == old(store.nextNoteId)
  {
    store.DeleteCategory(catId, userId);
    reply := Success;
  }

  /** After a delete, a note that pointed at the category still holds its id but the listing shows no name. */
  lemma DeletedCategoryDangles(categories: seq<Category>, nextId: int, i: int, n: Note)
    requires CategoriesValid(categories, nextId) && 0 <= i < |categories|
    requires n.categoryId == Some(categories[i].id)
    ensures CategoryName(DeletedCategories(categories, categories[i].id, categories[i].userId), n.categoryId).None?
  {
    var rest := DeletedCategories(categories, categories[i].id, categories[i].userId);
    forall c | c in rest ensures c.id != categories[i].id {
      var k :| 0 <= k < |categories| && categories[k] == c;
      assert k < i ==> CategoryIdLess(categories[k], categories[i]);
      assert i < k ==> CategoryIdLess(categories[i], categories[k]);
    }
  }
}
