/** The post store of the newer board: an in-memory list of records and a
    counter, the `/post` handler behind the login gate, and the newest-first
    listing of `/`. Pygments is not modelled: the highlighter and the lexer
    registry are parameters of the store. */
module TransBbs {
  import opened Common
  import opened SessionGate

  /** A stored record. `message` is kept raw (it is escaped when rendered);
      `highlightedCode` is the HTML Pygments produced at submission time. */
  datatype Post = Post(id: nat, username: string, message: Option<string>, highlightedCode: Option<string>)

  /** The fields of a `/post` submission, each possibly absent. */
  datatype PostForm = PostForm(username: Option<string>, message: Option<string>,
                               codeSnippet: Option<string>, language: Option<string>)

  /** The lexer Pygments always knows. */
  const PlainLexer: string := "text"

  /** `request.form.get('language', 'text')`, then `get_lexer_by_name`, falling
      back to the plain-text lexer when the name is unknown; never fails. */
  function LexerFor(language: Option<string>, known: string -> bool): (r: string)
    ensures r == PlainLexer || (language == Some(r) && known(r))
    ensures language.Some? && known(language.value) ==> r == language.value
  {
    var name := GetOr(language, PlainLexer);
    if known(name) then name else PlainLexer
  }

  /** The acceptance rule: a message or a code snippet that is non-empty. No
      trimming: a message of spaces is accepted. */
  predicate Accepts(form: PostForm) {
    Truthy(form.message) || Truthy(form.codeSnippet)
  }

  /** The record an accepted submission is stored as. */
  function NewPost(id: nat, form: PostForm, highlight: (string, string) -> string, known: string -> bool): (p: Post)
    ensures p.id == id && p.message == form.message
    ensures p.username != []
    ensures Truthy(form.username) ==> p.username == form.username.value
    ensures !Truthy(form.username) ==> p.username == Anonymous
    ensures p.highlightedCode.None? <==> !Truthy(form.codeSnippet)
    ensures p.highlightedCode.Some? ==>
              p.highlightedCode.value == highlight(form.codeSnippet.value, LexerFor(form.language, known))
  {
    var code := if Truthy(form.codeSnippet)
                then Some(highlight(form.codeSnippet.value, LexerFor(form.language, known)))
                else None;
    Post(id, DisplayName(form.username), form.message, code)
  }

  /** Ids follow storage order: the record at position `i` has id `i + 1`. */
  ghost predicate IdsInOrder(posts: seq<Post>) {
    forall i :: 0 <= i < |posts| ==> posts[i].id == i + 1
  }

  /** Ids in storage order are strictly increasing, hence never reused. */
  lemma {:induction false} IdsIncrease(posts: seq<Post>)
    requires IdsInOrder(posts)
    ensures forall i, j :: 0 <= i < j < |posts| ==> posts[i].id < posts[j].id
  {
  }

  /** The module-level `posts` list and `post_id_counter`. */
  class PostStore {
    var posts: seq<Post>
    var counter: nat
    /** Pygments' `highlight` with the board's formatter, taking the code and
        the lexer name. */
    const highlight: (string, string) -> string
    /** Whether Pygments has a lexer of that name. */
    const known: string -> bool

    /** The counter counts the records, and each id is its position plus one. */
    ghost predicate Valid()
      reads this
    {
      counter == |posts| && IdsInOrder(posts)
    }

    /** The store at process start: no records, counter 0. */
    constructor (highlight: (string, string) -> string, known: string -> bool)
      ensures Valid()
      ensures posts == [] && counter == 0
      ensures this.highlight == highlight && this.known == known
    {
      posts := [];
      counter := 0;
      this.highlight := highlight;
      this.known := known;
    }

    /** The body of `post()`: highlight the snippet if there is one, then
        append a record when the acceptance rule holds. */
    method Submit(form: PostForm)
      requires Valid()
      modifies this
      ensures Valid()
      ensures Accepts(form) ==> counter == old(counter) + 1
      ensures Accepts(form) ==> posts == old(posts) + [NewPost(counter, form, highlight, known)]
      ensures !Accepts(form) ==> posts == old(posts) && counter == old(counter)
    {
      var highlightedCode: Option<string> := None;
      if Truthy(form.codeSnippet) {
        var lexer := LexerFor(form.language, known);
        highlightedCode := Some(highlight(form.codeSnippet.value, lexer));
      }
      if Truthy(form.message) || Truthy(form.codeSnippet) {
        counter := counter + 1;
        posts := posts + [Post(counter, DisplayName(form.username), form.message, highlightedCode)];
      }
    }

    /** `/post` as routed: the login gate first, then the body, and a redirect
        to the post list in every case the gate lets through. */
    method PostRoute(session: Session, url: string, form: PostForm) returns (r: Response)
      requires Valid()
      modifies this
      ensures Valid()
      ensures !session.loggedIn ==> r == Guard(false, url).value
      ensures !session.loggedIn ==> posts == old(posts) && counter == old(counter)
      ensures session.loggedIn ==> r == Redirect(IndexPage, None)
      ensures session.loggedIn && Accepts(form) ==>
                counter == old(counter) + 1 && posts == old(posts) + [NewPost(counter, form, highlight, known)]
      ensures session.loggedIn && !Accepts(form) ==> posts == old(posts) && counter == old(counter)
    {
      var refused := Guard(session.loggedIn, url);
      if refused.Some? {
        return refused.value;
      }
      Submit(form);
      r := Redirect(IndexPage, None);
    }

    /** `/`: the records, newest first. */
    method Index() returns (view: seq<Post>)
      ensures |view| == |posts|
      ensures forall i :: 0 <= i < |view| ==> view[i] == posts[|posts| - 1 - i]
      ensures Valid() ==> forall i, j :: 0 <= i < j < |view| ==> view[i].id > view[j].id
    {
      view := NewestFirst(posts);
    }
  }

  /** Three accepted posts A, B, C are listed C, B, A, with ids 3, 2, 1. */
  method ListsNewestFirst(a: PostForm, b: PostForm, c: PostForm,
                          highlight: (string, string) -> string, known: string -> bool)
    returns (view: seq<Post>)
    requires Accepts(a) && Accepts(b) && Accepts(c)
    ensures |view| == 3
    ensures view[0].id == 3 && view[1].id == 2 && view[2].id == 1
    ensures view[0].message == c.message && view[1].message == b.message && view[2].message == a.message
  {
    var store := new PostStore(highlight, known);
    store.Submit(a);
    store.Submit(b);
    store.Submit(c);
    view := store.Index();
  }

  /** A submission the rule refuses leaves an empty store empty. */
  method EmptySubmissionIsDropped(form: PostForm,
                                  highlight: (string, string) -> string, known: string -> bool)
    returns (view: seq<Post>)
    requires !Accepts(form)
    ensures view == []
  {
    var store := new PostStore(highlight, known);
    store.Submit(form);
    view := store.Index();
  }
}
