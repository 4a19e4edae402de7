/** The post store of the earlier board: the same list and counter, records
    without code, a `/post` handler with no login gate, and the newest-first
    listing of `/`. */
module SimpleBbs {
  import opened Common
  import opened SessionGate

  /** A stored record; only a non-empty message is ever stored. */
  datatype Post = Post(id: nat, username: string, message: string)

  /** Ids follow storage order: the record at position `i` has id `i + 1`. */
  ghost predicate IdsInOrder(posts: seq<Post>) {
    forall i :: 0 <= i < |posts| ==> posts[i].id == i + 1
  }

  /** The module-level `posts` list and `post_id_counter`. */
  class PostStore {
    var posts: seq<Post>
    var counter: nat

    /** The counter counts the records, and each id is its position plus one. */
    ghost predicate Valid()
      reads this
    {
      counter == |posts| && IdsInOrder(posts)
    }

    /** The store at process start: no records, counter 0. */
    constructor ()
      ensures Valid()
      ensures posts == [] && counter == 0
    {
      posts := [];
      counter := 0;
    }

    /** `post()`: append a record when the message is non-empty (no trimming),
        then answer with a redirect to `/` in every case. */
    method Submit(username: Option<string>, message: Option<string>) returns (r: Response)
      requires Valid()
      modifies this
      ensures Valid()
      ensures r == Redirect(IndexPage, None)
      ensures Truthy(message) ==> counter == old(counter) + 1
      ensures Truthy(message) ==> posts == old(posts) + [Post(counter, DisplayName(username), message.value)]
      ensures !Truthy(message) ==> posts == old(posts) && counter == old(counter)
    {
      if Truthy(message) {
        counter := counter + 1;
        posts := posts + [Post(counter, DisplayName(username), message.value)];
      }
      r := Redirect(IndexPage, None);
    }

    /** `/`: the records, newest first. */
    method Index() returns (view: seq<Post>)
      ensures |view| == |posts|
      ensures forall i :: 0 <= i < |view| ==> view[i] == posts[|posts| - 1 - i]
      ensures Valid() ==> forall i, j :: 0 <= i < j < |view| ==> view[i].id > view[j].id
    {
      view := NewestFirst(posts);
    }
  }

  /** Two posts with the same text still get distinct ids, and an empty name
      is stored as the placeholder. */
  method SameTextTwice(text: string) returns (view: seq<Post>)
    requires text != []
    ensures |view| == 2 && view[0].id == 2 && view[1].id == 1
    ensures view[0].message == text && view[1].message == text
    ensures view[0].username == Anonymous && view[1].username == Anonymous
  {
    var store := new PostStore();
    var _ := store.Submit(Some(""), Some(text));
    var _ := store.Submit(None, Some(text));
    view := store.Index();
  }
}
