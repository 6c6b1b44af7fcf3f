/** The non-Qt logic of the forms in ui.py: the `"uid name"` entries of the
    user combobox and how the device form reads the uid back, the guards that
    stop a form when a field is empty, and the article list filtered by the
    selected producer. Widgets are reduced to the texts they hold. */
module UiForms {
  import opened Wrappers
  import opened PyText
  import UiTree

  /** `set_combobox_user_d`: an empty entry, then `f"{user.uid} {str(user)}"`
      for every user. */
  function UserComboItems(users: seq<UiTree.Member>): (items: seq<string>)
    ensures |items| == |users| + 1 && items[0] == ""
    ensures forall i :: 0 < i < |items| ==> items[i] == IntToString(users[i - 1].uid) + " " + users[i - 1].display
  {
    [""] + seq(|users|, i requires 0 <= i < |users| => IntToString(users[i].uid) + " " + users[i].display)
  }

  /** `int(user.split(" ")[0])`, or `None` where `int` raises ValueError. */
  function UidOfEntry(text: string): Option<int> {
    ParseInt(Split(text, ' ')[0])
  }

  /** Every user entry of the combobox gives back that user's uid, whatever
      the user's `str`. */
  lemma ComboRoundTrip(users: seq<UiTree.Member>, i: nat)
    requires 0 < i <= |users|
    ensures UidOfEntry(UserComboItems(users)[i]) == Some(users[i - 1].uid)
  {
    var u := users[i - 1];
    var t := IntToString(u.uid);
    var item := UserComboItems(users)[i];
    assert item == t + (" " + u.display);
    IntToStringHasNoSpace(u.uid);
    SplitFirstWord(t, " " + u.display);
    assert Split(item, ' ')[0] == t;
    ParseIntOfIntToString(u.uid);
    assert UidOfEntry(item) == ParseInt(t);
  }

  /** `"" in (field texts)`: the check each form makes before doing anything. */
  predicate SomeFieldEmpty(fields: seq<string>) {
    exists i :: 0 <= i < |fields| && fields[i] == ""
  }

  /** What a form does: show the notice and stop, or go on with a request. */
  datatype Submitted<T> = NotAllFieldsFilled | Proceed(request: T)

  /** `new_user`: `slots.create_admin()` or `slots.create_user()` depending on
      the admin check box, once all six text boxes are filled. */
  datatype NewUserRequest = CreateAdmin | CreateUser

  function SubmitUser(name: string, surname: string, email: string, phone: string,
                      password1: string, password2: string, adminChecked: bool): (r: Submitted<NewUserRequest>)
    ensures r.NotAllFieldsFilled? <==> "" in [name, surname, email, phone, password1, password2]
    ensures r.Proceed? ==> (r.request == CreateAdmin <==> adminChecked)
  {
    if "" in [name, surname, email, phone, password1, password2] then NotAllFieldsFilled
    else if adminChecked then Proceed(CreateAdmin)
    else Proceed(CreateUser)
  }

  /** The texts of the device form that `b_create_device_click` passes on:
      the user entry reduced to its uid. */
  datatype DeviceRequest = DeviceRequest(article: string, location: string, userUid: int, path: string)

  datatype DeviceOutcome =
    | DeviceFieldsMissing        // the notice: some field is ""
    | UidNotANumber              // `int(...)` raises ValueError
    | CreateDevice(request: DeviceRequest)

  /** `b_create_device_click` up to the database request: the four form
      texts are checked for `""`, then the uid is read from the user entry. */
  function SubmitDevice(article: string, location: string, user: string, path: string): (r: DeviceOutcome)
    ensures r.DeviceFieldsMissing? <==> SomeFieldEmpty([article, location, user, path])
    ensures r.UidNotANumber? <==> !SomeFieldEmpty([article, location, user, path]) && UidOfEntry(user).None?
    ensures r.CreateDevice? ==> r.request == DeviceRequest(article, location, UidOfEntry(user).value, path)
  {
    if "" in [article, location, user, path] then
      assert [article, location, user, path][IndexOf([article, location, user, path], "")] == "";
      DeviceFieldsMissing
    else
      match UidOfEntry(user)
      case None => UidNotANumber
      case Some(uid) => CreateDevice(DeviceRequest(article, location, uid, path))
  }

  /** Position of `x` in `xs`. */
  function IndexOf(xs: seq<string>, x: string): (i: nat)
    requires x in xs
    ensures i < |xs| && xs[i] == x
  {
    if xs[0] == x then 0 else 1 + IndexOf(xs[1..], x)
  }

  /** Choosing a user from the combobox and filling the other fields creates
      the device for that user; leaving the user entry on `""` stops the form. */
  lemma DeviceForComboUser(users: seq<UiTree.Member>, i: nat, article: string, location: string, path: string)
    requires i <= |users| && article != "" && location != "" && path != ""
    ensures i == 0 ==> SubmitDevice(article, location, UserComboItems(users)[i], path) == DeviceFieldsMissing
    ensures i > 0 ==> SubmitDevice(article, location, UserComboItems(users)[i], path)
                        == CreateDevice(DeviceRequest(article, location, users[i - 1].uid, path))
  {
    var item := UserComboItems(users)[i];
    if i == 0 {
      assert [article, location, item, path][2] == "";
    } else {
      ComboRoundTrip(users, i);
      assert |item| > 0;
      NoFieldEmpty(article, location, item, path);
    }
  }

  lemma NoFieldEmpty(a: string, b: string, c: string, d: string)
    requires a != "" && b != "" && c != "" && d != ""
    ensures !SomeFieldEmpty([a, b, c, d])
  {
  }

  /** `b_create_article_click`: the article name and the producer selection
      must both be filled. */
  datatype ArticleRequest = ArticleRequest(name: string, producerName: string)

  function SubmitArticle(name: string, producerName: string): (r: Submitted<ArticleRequest>)
    ensures r.NotAllFieldsFilled? <==> name == "" || producerName == ""
    ensures r.Proceed? ==> r.request.name == name && r.request.producerName == producerName
  {
    if "" in [name, producerName] then NotAllFieldsFilled
    else Proceed(ArticleRequest(name, producerName))
  }

  datatype Producer = Producer(uid: int, name: string)
  datatype Article = Article(name: string, producerUid: int)

  /** The uid the loop over producers leaves in `producerXY`: that of the
      last producer with the selected name, or the value it held before. */
  function LastProducerUid(producers: seq<Producer>, selected: string, previous: Option<int>): (r: Option<int>)
    ensures (exists i :: 0 <= i < |producers| && producers[i].name == selected) ==>
              exists i :: 0 <= i < |producers| && producers[i].name == selected && r == Some(producers[i].uid)
                          && forall j :: i < j < |producers| ==> producers[j].name != selected
    ensures (forall i :: 0 <= i < |producers| ==> producers[i].name != selected) ==> r == previous
    decreases |producers|
  {
    if |producers| == 0 then previous
    else
      var last := producers[|producers| - 1];
      var front := producers[..|producers| - 1];
      if last.name == selected then Some(last.uid)
      else
        var r := LastProducerUid(front, selected, previous);
        assert forall i :: 0 <= i < |front| ==> front[i] == producers[i];
        r
  }

  function ArticleName(a: Article): string { a.name }

  function Names(articles: seq<Article>): (names: seq<string>)
    ensures |names| == |articles| && forall i :: 0 <= i < |articles| ==> names[i] == articles[i].name
  {
    seq(|articles|, i requires 0 <= i < |articles| => articles[i].name)
  }

  /** The test of line 227: the article's producer uid equals `producerXY`. */
  function MadeBy(producerXY: Option<int>): Article -> bool {
    (a: Article) => Some(a.producerUid) == producerXY
  }

  /** The article combobox after `reload_combobox_article_d`, and the new
      `producerXY` attribute (`None` while it was never set). */
  datatype ArticleList = ArticleList(items: seq<string>, producerXY: Option<int>)

  /** `reload_combobox_article_d`: an empty producer selection lists every
      article; otherwise only the articles whose producer uid equals
      `producerXY`. Reading `producerXY` before it was ever set raises
      AttributeError, which happens only if there is an article to test. The
      kept names follow the article table, in its order and with its repeats. */
  function ReloadArticles(articles: seq<Article>, producers: seq<Producer>, selected: string,
                          producerXY: Option<int>): (r: Result<ArticleList, string>)
    ensures selected == "" ==> r == Success(ArticleList(Names(articles), producerXY))
    ensures selected != "" && r.Success? ==>
              && r.value.producerXY == LastProducerUid(producers, selected, producerXY)
              && (|articles| > 0 ==> r.value.producerXY.Some?)
              && (forall n :: n in r.value.items <==>
                    exists i :: 0 <= i < |articles| && articles[i].name == n
                                && Some(articles[i].producerUid) == r.value.producerXY)
              && r.value.items == Names(Filter(articles, MadeBy(r.value.producerXY)))
    ensures r.Failure? <==> selected != "" && |articles| > 0 && LastProducerUid(producers, selected, producerXY).None?
  {
    if selected == "" then Success(ArticleList(Names(articles), producerXY))
    else
      var xy := LastProducerUid(producers, selected, producerXY);
      if xy.None? && |articles| > 0 then Failure("AttributeError: producerXY")
      else
        var kept := Filter(articles, MadeBy(xy));
        FilteredNames(articles, kept, xy);
        Success(ArticleList(Names(kept), xy))
  }

  lemma FilteredNames(articles: seq<Article>, kept: seq<Article>, xy: Option<int>)
    requires forall a :: a in kept <==> a in articles && Some(a.producerUid) == xy
    ensures forall n :: n in Names(kept) <==>
              exists i :: 0 <= i < |articles| && articles[i].name == n && Some(articles[i].producerUid) == xy
  {
    NamesMembership(kept);
    forall n
      ensures n in Names(kept) <==>
                exists i :: 0 <= i < |articles| && articles[i].name == n && Some(articles[i].producerUid) == xy
    {
      if exists i :: 0 <= i < |articles| && articles[i].name == n && Some(articles[i].producerUid) == xy {
        var i :| 0 <= i < |articles| && articles[i].name == n && Some(articles[i].producerUid) == xy;
        assert articles[i] in kept;
        var k :| 0 <= k < |kept| && kept[k] == articles[i];
      }
      if n in Names(kept) {
        var k :| 0 <= k < |kept| && kept[k].name == n;
        assert kept[k] in articles;
        var i :| 0 <= i < |articles| && articles[i] == kept[k];
      }
    }
  }

  lemma NamesMembership(articles: seq<Article>)
    ensures forall n :: n in Names(articles) <==> exists i :: 0 <= i < |articles| && articles[i].name == n
  {
    forall n | n in Names(articles)
      ensures exists i :: 0 <= i < |articles| && articles[i].name == n
    {
      var i :| 0 <= i < |Names(articles)| && Names(articles)[i] == n;
      assert articles[i].name == n;
    }
  }

  /** Selecting a producer that exists lists exactly its articles, whatever
      was selected before. */
  lemma SelectedProducerArticles(articles: seq<Article>, producers: seq<Producer>, k: nat, producerXY: Option<int>)
    requires k < |producers| && producers[k].name != ""
    requires forall j :: 0 <= j < |producers| && j != k ==> producers[j].name != producers[k].name
    ensures var r := ReloadArticles(articles, producers, producers[k].name, producerXY);
            && r.Success?
            && r.value.producerXY == Some(producers[k].uid)
            && (forall n :: n in r.value.items <==>
                  exists i :: 0 <= i < |articles| && articles[i].name == n && articles[i].producerUid == producers[k].uid)
            && r.value.items == Names(Filter(articles, MadeBy(Some(producers[k].uid))))
  {
  }

  /** A selection that names no producer keeps the previous `producerXY`: the
      list shows the articles of the producer selected before. */
  lemma StaleSelection(articles: seq<Article>, producers: seq<Producer>, selected: string, previous: int)
    requires selected != ""
    requires forall i :: 0 <= i < |producers| ==> producers[i].name != selected
    ensures ReloadArticles(articles, producers, selected, Some(previous)).Success?
    ensures ReloadArticles(articles, producers, selected, Some(previous)).value.producerXY == Some(previous)
  {
  }

  /** The first reload with a selection that names no producer raises, as
      soon as there is an article. */
  lemma NeverSetRaises(articles: seq<Article>, producers: seq<Producer>, selected: string)
    requires selected != "" && |articles| > 0
    requires forall i :: 0 <= i < |producers| ==> producers[i].name != selected
    ensures ReloadArticles(articles, producers, selected, None).Failure?
  {
  }
}
