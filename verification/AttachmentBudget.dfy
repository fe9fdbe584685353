/** The two passes that give article attachments their share of the download budgets. */
module AttachmentBudget {
  import opened Wrappers

  /** `category` is the object's own category, or the one its name is classified as. */
  datatype Object = Object(url: string, category: string, expected: Option<int>, estimated: bool)

  /** `text` and `metadata` are the expected sizes of these two objects. */
  datatype Article = Article(pmcid: string, text: Option<int>, metadata: Option<int>,
                             attachments: seq<Object>, all_attachments: seq<Object>, expected_bytes: int)

  /** The remaining bytes of each category (a missing or negative budget is 0); a category without a
      budget has none. */
  datatype Budgets = Budgets(pdf: nat, image: nat, supplement: nat) {
    function Get(category: string): nat {
      if category == "pdf" then pdf
      else if category == "image" then image
      else if category == "supplement" then supplement
      else 0
    }

    function Put(category: string, left: nat): Budgets {
      if category == "pdf" then this.(pdf := left)
      else if category == "image" then this.(image := left)
      else if category == "supplement" then this.(supplement := left)
      else this
    }

    function Sum(): nat {
      pdf + image + supplement
    }
  }

  function Size(o: Object): (size: nat)
    ensures size > 0
  {
    if o.expected.Some? && o.expected.value > 0 then o.expected.value
    else if o.category == "pdf" then 2 * 1024 * 1024
    else if o.category == "image" then 200 * 1024
    else 1024 * 1024
  }

  /** The object with its size written down. */
  function Sized(o: Object): (r: Object)
    ensures Size(r) == Size(o) && r.expected == Some(Size(o)) && r.url == o.url && r.category == o.category
  {
    o.(expected := Some(Size(o)), estimated := !(o.expected.Some? && o.expected.value > 0))
  }

  function OrZero(n: Option<int>): int {
    if n.Some? then n.value else 0
  }

  function Bytes(objects: seq<Object>): int {
    if objects == [] then 0 else OrZero(objects[0].expected) + Bytes(objects[1..])
  }

  function ArticleBytes(a: Article, attachments: seq<Object>): int {
    OrZero(a.text) + OrZero(a.metadata) + Bytes(attachments)
  }

  function WithAttachments(a: Article, attachments: seq<Object>): Article {
    a.(attachments := attachments, expected_bytes := ArticleBytes(a, attachments))
  }

  // ---------- First pass: each category has its own budget ----------

  function TakeObjects(objects: seq<Object>, budgets: Budgets): (seq<Object>, Budgets) {
    if objects == [] then ([], budgets)
    else
      var o := objects[0];
      var left := budgets.Get(o.category) - Size(o);
      if left < 0 then TakeObjects(objects[1..], budgets)
      else
        var (kept, remaining) := TakeObjects(objects[1..], budgets.Put(o.category, left));
        ([Sized(o)] + kept, remaining)
  }

  function FirstPass(articles: seq<Article>, budgets: Budgets): (r: (seq<Article>, Budgets))
    ensures |r.0| == |articles|
  {
    if articles == [] then ([], budgets)
    else
      var (kept, left) := TakeObjects(articles[0].attachments, budgets);
      var (rest, remaining) := FirstPass(articles[1..], left);
      ([WithAttachments(articles[0], kept)] + rest, remaining)
  }

  // ---------- Second pass: what is left is pooled ----------

  datatype Spilled = Spilled(owner: string, item: Object)

  predicate HasUrl(objects: seq<Object>, url: string) {
    exists o <- objects :: o.url == url
  }

  function UnusedOf(owner: string, chosen: seq<Object>, objects: seq<Object>): seq<Spilled> {
    if objects == [] then []
    else
      var rest := UnusedOf(owner, chosen, objects[1..]);
      if HasUrl(chosen, objects[0].url) then rest else [Spilled(owner, objects[0])] + rest
  }

  function Unused(articles: seq<Article>): seq<Spilled> {
    if articles == [] then []
    else UnusedOf(articles[0].pmcid, articles[0].attachments, articles[0].all_attachments) + Unused(articles[1..])
  }

  function TakeSpilled(unused: seq<Spilled>, leftover: nat): (seq<Spilled>, nat) {
    if unused == [] then ([], leftover)
    else if Size(unused[0].item) <= leftover then
      var (taken, left) := TakeSpilled(unused[1..], leftover - Size(unused[0].item));
      ([unused[0].(item := Sized(unused[0].item))] + taken, left)
    else TakeSpilled(unused[1..], leftover)
  }

  function ExtraFor(pmcid: string, spilled: seq<Spilled>): seq<Object> {
    if spilled == [] then []
    else (if spilled[0].owner == pmcid then [spilled[0].item] else []) + ExtraFor(pmcid, spilled[1..])
  }

  function Merge(articles: seq<Article>, spilled: seq<Spilled>): (r: seq<Article>)
    ensures |r| == |articles|
  {
    if articles == [] then []
    else
      var a := articles[0];
      [WithAttachments(a, a.attachments + ExtraFor(a.pmcid, spilled))] + Merge(articles[1..], spilled)
  }

  function SpillUnused(articles: seq<Article>, leftover: nat): (r: seq<Article>)
    ensures |r| == |articles|
  {
    if leftover > 0 then Merge(articles, TakeSpilled(Unused(articles), leftover).0) else articles
  }

  function Assign(articles: seq<Article>, budgets: Budgets): (r: seq<Article>)
    ensures |r| == |articles|
  {
    var (kept, remaining) := FirstPass(articles, budgets);
    SpillUnused(kept, remaining.Sum())
  }

  /** What the spill took, and the bytes no object could use. */
  function Spill(articles: seq<Article>, budgets: Budgets): (seq<Spilled>, nat) {
    var (kept, remaining) := FirstPass(articles, budgets);
    if remaining.Sum() > 0 then TakeSpilled(Unused(kept), remaining.Sum()) else ([], 0)
  }

  // ---------- The first pass conserves each budget and wastes none ----------

  function BytesIn(objects: seq<Object>, category: string): int {
    if objects == [] then 0
    else (if objects[0].category == category then OrZero(objects[0].expected) else 0) + BytesIn(objects[1..], category)
  }

  function Total(articles: seq<Article>): int {
    if articles == [] then 0 else Bytes(articles[0].attachments) + Total(articles[1..])
  }

  function TotalIn(articles: seq<Article>, category: string): int {
    if articles == [] then 0 else BytesIn(articles[0].attachments, category) + TotalIn(articles[1..], category)
  }

  lemma {:induction false} ObjectsConserve(objects: seq<Object>, budgets: Budgets, category: string)
    ensures var (kept, remaining) := TakeObjects(objects, budgets);
            && BytesIn(kept, category) + remaining.Get(category) == budgets.Get(category)
            && Bytes(kept) + remaining.Sum() == budgets.Sum()
    decreases |objects|
  {
    hide Size;
    if objects != [] {
      var o := objects[0];
      var left := budgets.Get(o.category) - Size(o);
      if left < 0 {
        ObjectsConserve(objects[1..], budgets, category);
      } else {
        ObjectsConserve(objects[1..], budgets.Put(o.category, left), category);
      }
    }
  }

  /** After the first pass, the bytes kept in a category and those remaining in its budget add up to
      the budget, for every category (one without a budget keeps nothing). */
  lemma {:induction false} FirstPassConserves(articles: seq<Article>, budgets: Budgets, category: string)
    ensures var (kept, remaining) := FirstPass(articles, budgets);
            && TotalIn(kept, category) + remaining.Get(category) == budgets.Get(category)
            && Total(kept) + remaining.Sum() == budgets.Sum()
    decreases |articles|
  {
    if articles != [] {
      ObjectsConserve(articles[0].attachments, budgets, category);
      FirstPassConserves(articles[1..], TakeObjects(articles[0].attachments, budgets).1, category);
    }
  }

  /** `kept` holds only offered objects, and every offered object that is not kept is larger than what
      remains in its category. */
  ghost predicate KeepsAllThatFit(offered: seq<Object>, kept: seq<Object>, remaining: Budgets) {
    && (forall k <- kept :: exists o <- offered :: k == Sized(o))
    && (forall o <- offered :: Sized(o) in kept || Size(o) > remaining.Get(o.category))
  }

  ghost predicate NotAbove(a: Budgets, b: Budgets) {
    forall category :: a.Get(category) <= b.Get(category)
  }

  lemma {:induction false} ObjectsMaximal(objects: seq<Object>, budgets: Budgets)
    ensures var (kept, remaining) := TakeObjects(objects, budgets);
            NotAbove(remaining, budgets) && KeepsAllThatFit(objects, kept, remaining)
    decreases |objects|
  {
    hide Size, Sized;
    if objects != [] {
      var o, rest := objects[0], objects[1..];
      var left := budgets.Get(o.category) - Size(o);
      assert objects == [o] + rest;
      if left < 0 {
        ObjectsMaximal(rest, budgets);
      } else {
        ObjectsMaximal(rest, budgets.Put(o.category, left));
      }
    }
  }

  lemma {:induction false} FirstPassShrinks(articles: seq<Article>, budgets: Budgets)
    ensures NotAbove(FirstPass(articles, budgets).1, budgets)
    decreases |articles|
  {
    hide NotAbove;
    if articles == [] {
      NotAboveChain(budgets, budgets, budgets);
    } else {
      var left := TakeObjects(articles[0].attachments, budgets).1;
      ObjectsMaximal(articles[0].attachments, budgets);
      FirstPassShrinks(articles[1..], left);
      NotAboveChain(FirstPass(articles[1..], left).1, left, budgets);
    }
  }

  lemma NotAboveChain(a: Budgets, b: Budgets, c: Budgets)
    ensures NotAbove(a, a)
    ensures NotAbove(a, b) && NotAbove(b, c) ==> NotAbove(a, c)
  {
    if NotAbove(a, b) && NotAbove(b, c) {
      forall category ensures a.Get(category) <= c.Get(category) {
        assert a.Get(category) <= b.Get(category) <= c.Get(category);
      }
    }
  }

  /** The first pass changes an article's attachments and size only, and each attachment it drops is
      larger than what is finally left in its category. */
  lemma {:induction false} FirstPassMaximal(articles: seq<Article>, budgets: Budgets, i: nat)
    requires i < |articles|
    ensures var (kept, remaining) := FirstPass(articles, budgets);
            && kept[i] == WithAttachments(articles[i], kept[i].attachments)
            && KeepsAllThatFit(articles[i].attachments, kept[i].attachments, remaining)
    decreases i
  {
    hide KeepsAllThatFit, NotAbove;
    var (kept, left) := TakeObjects(articles[0].attachments, budgets);
    if i == 0 {
      ObjectsMaximal(articles[0].attachments, budgets);
      FirstPassShrinks(articles[1..], left);
      FitsLess(articles[0].attachments, kept, left, FirstPass(articles[1..], left).1);
    } else {
      FirstPassMaximal(articles[1..], left, i - 1);
    }
  }

  lemma FitsLess(offered: seq<Object>, kept: seq<Object>, left: Budgets, remaining: Budgets)
    requires KeepsAllThatFit(offered, kept, left) && NotAbove(remaining, left)
    ensures KeepsAllThatFit(offered, kept, remaining)
  {
  }

  // ---------- The spill ----------

  function SpilledBytes(spilled: seq<Spilled>): int {
    if spilled == [] then 0 else OrZero(spilled[0].item.expected) + SpilledBytes(spilled[1..])
  }

  lemma {:induction false} SpillConserves(unused: seq<Spilled>, leftover: nat)
    ensures var (taken, left) := TakeSpilled(unused, leftover);
            SpilledBytes(taken) + left == leftover
    decreases |unused|
  {
    hide Size;
    if unused != [] {
      if Size(unused[0].item) <= leftover {
        SpillConserves(unused[1..], leftover - Size(unused[0].item));
      } else {
        SpillConserves(unused[1..], leftover);
      }
    }
  }

  function Stamped(s: Spilled): Spilled {
    s.(item := Sized(s.item))
  }

  /** Every unused object is taken or is larger than what is left. */
  ghost predicate SpillsAllThatFit(unused: seq<Spilled>, taken: seq<Spilled>, left: nat) {
    forall u <- unused :: Stamped(u) in taken || Size(u.item) > left
  }

  /** Everything taken was unused. */
  ghost predicate TakesUnused(unused: seq<Spilled>, taken: seq<Spilled>) {
    forall t <- taken :: exists u <- unused :: t == Stamped(u)
  }

  lemma SpillCons(u: Spilled, unused: seq<Spilled>, taken: seq<Spilled>, left: nat)
    requires SpillsAllThatFit(unused, taken, left) && TakesUnused(unused, taken)
    ensures SpillsAllThatFit([u] + unused, [Stamped(u)] + taken, left)
    ensures TakesUnused([u] + unused, [Stamped(u)] + taken)
    ensures Size(u.item) > left ==> SpillsAllThatFit([u] + unused, taken, left)
    ensures TakesUnused([u] + unused, taken)
  {
    hide Size, Stamped;
    forall t | t in taken ensures exists v <- [u] + unused :: t == Stamped(v) {
      var v :| v in unused && t == Stamped(v);
      assert v in [u] + unused;
    }
    assert u in [u] + unused;
  }

  lemma {:induction false} SpillMaximal(unused: seq<Spilled>, leftover: nat)
    ensures var (taken, left) := TakeSpilled(unused, leftover);
            left <= leftover && SpillsAllThatFit(unused, taken, left) && TakesUnused(unused, taken)
    decreases |unused|
  {
    hide Size, Sized, SpillsAllThatFit, TakesUnused;
    if unused == [] {
      SpillNothing(leftover);
    } else {
      var u, rest := unused[0], unused[1..];
      assert unused == [u] + rest;
      if Size(u.item) <= leftover {
        SpillMaximal(rest, leftover - Size(u.item));
        var (taken, left) := TakeSpilled(rest, leftover - Size(u.item));
        SpillCons(u, rest, taken, left);
      } else {
        SpillMaximal(rest, leftover);
        var (taken, left) := TakeSpilled(rest, leftover);
        SpillCons(u, rest, taken, left);
      }
    }
  }

  lemma SpillNothing(left: nat)
    ensures SpillsAllThatFit([], [], left) && TakesUnused([], [])
  {
  }

  lemma {:induction false} UnusedOfHolds(owner: string, chosen: seq<Object>, objects: seq<Object>)
    ensures forall o <- objects :: HasUrl(chosen, o.url) || Spilled(owner, o) in UnusedOf(owner, chosen, objects)
    ensures forall u <- UnusedOf(owner, chosen, objects) :: u.owner == owner
  {
    if objects != [] {
      assert objects == [objects[0]] + objects[1..];
      UnusedOfHolds(owner, chosen, objects[1..]);
    }
  }

  function Multiplicity(articles: seq<Article>, pmcid: string): (m: nat) {
    if articles == [] then 0
    else (if articles[0].pmcid == pmcid then 1 else 0) + Multiplicity(articles[1..], pmcid)
  }

  /** An article's objects whose url was not chosen are unused, and every unused object has an owner. */
  lemma {:induction false} UnusedHolds(articles: seq<Article>)
    ensures forall a <- articles, o <- a.all_attachments ::
              HasUrl(a.attachments, o.url) || Spilled(a.pmcid, o) in Unused(articles)
    ensures forall u <- Unused(articles) :: Multiplicity(articles, u.owner) > 0
  {
    hide HasUrl;
    if articles != [] {
      var a := articles[0];
      assert articles == [a] + articles[1..];
      UnusedOfHolds(a.pmcid, a.attachments, a.all_attachments);
      UnusedHolds(articles[1..]);
    }
  }

  lemma {:induction false} ExtraHolds(pmcid: string, spilled: seq<Spilled>)
    ensures forall s <- spilled :: s.owner == pmcid ==> s.item in ExtraFor(pmcid, spilled)
  {
    if spilled != [] {
      assert spilled == [spilled[0]] + spilled[1..];
      ExtraHolds(pmcid, spilled[1..]);
    }
  }

  lemma {:induction false} MergeAt(articles: seq<Article>, spilled: seq<Spilled>, i: nat)
    requires i < |articles|
    ensures var a := articles[i];
            Merge(articles, spilled)[i] == WithAttachments(a, a.attachments + ExtraFor(a.pmcid, spilled))
  {
    if i > 0 {
      MergeAt(articles[1..], spilled, i - 1);
    }
  }

  // ---------- Totals ----------

  /** The bytes that merging adds: a spilled object is added to every article with its owner's pmcid. */
  function Credited(spilled: seq<Spilled>, articles: seq<Article>): int {
    if spilled == [] then 0
    else
      var s := spilled[0];
      Multiplicity(articles, s.owner) * OrZero(s.item.expected) + Credited(spilled[1..], articles)
  }

  lemma {:induction false} BytesConcat(a: seq<Object>, b: seq<Object>)
    ensures Bytes(a + b) == Bytes(a) + Bytes(b)
  {
    if a == [] {
      assert a + b == b;
    } else {
      assert (a + b)[1..] == a[1..] + b;
      BytesConcat(a[1..], b);
    }
  }

  lemma {:induction false} CreditedCons(spilled: seq<Spilled>, articles: seq<Article>)
    requires articles != []
    ensures Credited(spilled, articles)
         == Bytes(ExtraFor(articles[0].pmcid, spilled)) + Credited(spilled, articles[1..])
    decreases |spilled|
  {
    if spilled != [] {
      CreditedCons(spilled[1..], articles);
      var bytes, m := OrZero(spilled[0].item.expected), Multiplicity(articles[1..], spilled[0].owner);
      assert (m + 1) * bytes == m * bytes + bytes;
      BytesConcat(if spilled[0].owner == articles[0].pmcid then [spilled[0].item] else [],
                  ExtraFor(articles[0].pmcid, spilled[1..]));
    }
  }

  lemma {:induction false} CreditedNone(spilled: seq<Spilled>)
    ensures Credited(spilled, []) == 0
  {
    if spilled != [] {
      CreditedNone(spilled[1..]);
    }
  }

  lemma {:induction false} MergeTotal(articles: seq<Article>, spilled: seq<Spilled>)
    ensures Total(Merge(articles, spilled)) == Total(articles) + Credited(spilled, articles)
  {
    hide Credited, ExtraFor, Bytes;
    if articles == [] {
      CreditedNone(spilled);
    } else {
      var a := articles[0];
      MergeTotal(articles[1..], spilled);
      BytesConcat(a.attachments, ExtraFor(a.pmcid, spilled));
      CreditedCons(spilled, articles);
    }
  }

  /** Owners that name one article only are credited once. */
  ghost predicate OwnedOnce(spilled: seq<Spilled>, articles: seq<Article>) {
    forall s <- spilled :: Multiplicity(articles, s.owner) == 1
  }

  ghost predicate Positive(spilled: seq<Spilled>) {
    forall s <- spilled :: s.item.expected.Some? && s.item.expected.value > 0
  }

  lemma {:induction false} CreditedAtLeastOnce(spilled: seq<Spilled>, articles: seq<Article>)
    requires Positive(spilled) && forall s <- spilled :: Multiplicity(articles, s.owner) > 0
    ensures Credited(spilled, articles) >= SpilledBytes(spilled)
    ensures Credited(spilled, articles) == SpilledBytes(spilled) <==> OwnedOnce(spilled, articles)
  {
    hide Multiplicity;
    if spilled != [] {
      var s := spilled[0];
      assert spilled == [s] + spilled[1..];
      CreditedAtLeastOnce(spilled[1..], articles);
      AtLeastOnce(Multiplicity(articles, s.owner), OrZero(s.item.expected));
    }
  }

  lemma AtLeastOnce(m: nat, bytes: int)
    requires m > 0 && bytes > 0
    ensures m * bytes >= bytes && (m * bytes == bytes <==> m == 1)
  {
    assert m * bytes == (m - 1) * bytes + bytes;
    if m > 1 {
      assert (m - 1) * bytes > 0;
    }
  }

  lemma {:induction false} FirstPassKeepsIds(articles: seq<Article>, budgets: Budgets, pmcid: string)
    ensures Multiplicity(FirstPass(articles, budgets).0, pmcid) == Multiplicity(articles, pmcid)
    decreases |articles|
  {
    if articles != [] {
      FirstPassKeepsIds(articles[1..], TakeObjects(articles[0].attachments, budgets).1, pmcid);
    }
  }

  /** For all inputs: the attachment bytes and the final leftover add up to at least the three budgets
      together, and to exactly that if and only if no object was spilled to a repeated pmcid. */
  lemma AssignConservesExactly(articles: seq<Article>, budgets: Budgets)
    ensures var (taken, leftover) := Spill(articles, budgets);
            && Total(Assign(articles, budgets)) + leftover >= budgets.Sum()
            && (Total(Assign(articles, budgets)) + leftover == budgets.Sum() <==> OwnedOnce(taken, articles))
  {
    hide TakeSpilled, Unused, Merge, FirstPass;
    var (kept, remaining) := FirstPass(articles, budgets);
    FirstPassConserves(articles, budgets, "pdf");
    if remaining.Sum() > 0 {
      var unused := Unused(kept);
      var taken := TakeSpilled(unused, remaining.Sum()).0;
      SpillConserves(unused, remaining.Sum());
      SpillMaximal(unused, remaining.Sum());
      UnusedHolds(kept);
      MergeTotal(kept, taken);
      CreditedAtLeastOnce(taken, kept);
      forall s | s in taken ensures Multiplicity(kept, s.owner) == Multiplicity(articles, s.owner) {
        FirstPassKeepsIds(articles, budgets, s.owner);
      }
    }
  }

  ghost predicate DistinctIds(articles: seq<Article>) {
    forall i, j | 0 <= i < j < |articles| :: articles[i].pmcid != articles[j].pmcid
  }

  lemma {:induction false} DistinctOnce(articles: seq<Article>, pmcid: string)
    requires DistinctIds(articles)
    ensures Multiplicity(articles, pmcid) <= 1
    ensures Multiplicity(articles, pmcid) == 1 <==> exists a <- articles :: a.pmcid == pmcid
  {
    if articles != [] {
      assert articles == [articles[0]] + articles[1..];
      DistinctOnce(articles[1..], pmcid);
    }
  }

  /** With distinct pmcids the assigned bytes and the final leftover are the three budgets. */
  lemma AssignConserves(articles: seq<Article>, budgets: Budgets)
    requires DistinctIds(articles)
    ensures Total(Assign(articles, budgets)) + Spill(articles, budgets).1 == budgets.Sum()
  {
    hide Unused, TakeSpilled, FirstPass, Assign;
    var taken := Spill(articles, budgets).0;
    forall s | s in taken ensures Multiplicity(articles, s.owner) == 1 {
      var (kept, remaining) := FirstPass(articles, budgets);
      SpillMaximal(Unused(kept), remaining.Sum());
      UnusedHolds(kept);
      FirstPassKeepsIds(articles, budgets, s.owner);
      DistinctOnce(articles, s.owner);
    }
    AssignConservesExactly(articles, budgets);
  }

  /** Maximality, with or without distinct pmcids: an attachment that an article offers and that its
      assigned attachments do not hold by url is larger than the final leftover. */
  lemma AssignMaximal(articles: seq<Article>, budgets: Budgets, i: nat, o: Object)
    requires i < |articles| && o in articles[i].all_attachments
    ensures HasUrl(Assign(articles, budgets)[i].attachments, o.url) || Size(o) > Spill(articles, budgets).1
  {
    hide TakeSpilled, Unused, Merge, FirstPass, Size;
    var (kept, remaining) := FirstPass(articles, budgets);
    FirstPassMaximal(articles, budgets, i);
    if remaining.Sum() > 0 {
      var unused, a := Unused(kept), kept[i];
      var taken := TakeSpilled(unused, remaining.Sum()).0;
      SpillMaximal(unused, remaining.Sum());
      MergeAt(kept, taken, i);
      UnusedHolds(kept);
      ExtraHolds(a.pmcid, taken);
      var extra := ExtraFor(a.pmcid, taken);
      assert a in kept && o in a.all_attachments;
      UrlOfConcat(a.attachments, extra, o.url);
      UrlOfMember(extra, Sized(o));
      assert Stamped(Spilled(a.pmcid, o)) in taken ==> Sized(o) in extra;
    }
  }

  lemma UrlOfConcat(a: seq<Object>, b: seq<Object>, url: string)
    ensures HasUrl(a + b, url) <==> HasUrl(a, url) || HasUrl(b, url)
  {
    if HasUrl(a, url) {
      var k :| k in a && k.url == url;
      assert k in a + b;
    } else if HasUrl(b, url) {
      var k :| k in b && k.url == url;
      assert k in a + b;
    }
  }

  lemma UrlOfMember(objects: seq<Object>, o: Object)
    ensures o in objects ==> HasUrl(objects, o.url)
  {
  }

  /** Assignment changes nothing of an article but its attachments, which are those the first pass kept
      and then those spilled to its pmcid, and its size, which is text, metadata and attachments together. */
  lemma AssignedArticle(articles: seq<Article>, budgets: Budgets, i: nat)
    requires i < |articles|
    ensures var a := Assign(articles, budgets)[i];
            && a == articles[i].(attachments := a.attachments, expected_bytes := a.expected_bytes)
            && a.expected_bytes == OrZero(a.text) + OrZero(a.metadata) + Bytes(a.attachments)
            && a.attachments == FirstPass(articles, budgets).0[i].attachments
                                + ExtraFor(a.pmcid, Spill(articles, budgets).0)
  {
    hide FirstPass, Merge, TakeSpilled, Unused;
    var (kept, remaining) := FirstPass(articles, budgets);
    FirstPassMaximal(articles, budgets, i);
    if remaining.Sum() > 0 {
      MergeAt(kept, TakeSpilled(Unused(kept), remaining.Sum()).0, i);
    }
  }

  // ---------- First come, first served ----------

  lemma {:induction false} TakeSplit(a: seq<Object>, b: seq<Object>, budgets: Budgets)
    ensures var (first, left) := TakeObjects(a, budgets);
            var (second, remaining) := TakeObjects(b, left);
            TakeObjects(a + b, budgets) == (first + second, remaining)
    decreases |a|
  {
    hide Size, Sized;
    if a == [] {
      assert a + b == b && [] + TakeObjects(b, budgets).0 == TakeObjects(b, budgets).0;
    } else {
      var o := a[0];
      var left := budgets.Get(o.category) - Size(o);
      assert (a + b)[1..] == a[1..] + b;
      if left < 0 {
        TakeSplit(a[1..], b, budgets);
      } else {
        var rest := budgets.Put(o.category, left);
        TakeSplit(a[1..], b, rest);
        var kept := TakeObjects(a[1..], rest).0;
        var second := TakeObjects(b, TakeObjects(a[1..], rest).1).0;
        assert [Sized(o)] + (kept + second) == ([Sized(o)] + kept) + second;
      }
    }
  }

  lemma TakeOne(o: Object, budgets: Budgets)
    ensures TakeObjects([o], budgets).0 == if Size(o) <= budgets.Get(o.category) then [Sized(o)] else []
  {
    hide Size, Sized;
    assert [o][1..] == [];
    assert TakeObjects([], budgets) == ([], budgets);
    if Size(o) <= budgets.Get(o.category) {
      var left := budgets.Put(o.category, budgets.Get(o.category) - Size(o));
      assert TakeObjects([], left) == ([], left) && [Sized(o)] + [] == [Sized(o)];
    }
  }

  /** Each object is served before those behind it: what the first i objects keep stays, and the next
      one is added if and only if it fits the budget less the bytes kept in its category so far. */
  lemma ServedInOrder(objects: seq<Object>, budgets: Budgets, i: nat)
    requires i < |objects|
    ensures var o, before := objects[i], TakeObjects(objects[..i], budgets).0;
            var fits := Size(o) <= budgets.Get(o.category) - BytesIn(before, o.category);
            && TakeObjects(objects[..i + 1], budgets).0 == before + (if fits then [Sized(o)] else [])
            && TakeObjects(objects[..i + 1], budgets).0 <= TakeObjects(objects, budgets).0
  {
    hide TakeObjects, Size, Sized;
    var o, left := objects[i], TakeObjects(objects[..i], budgets).1;
    assert objects[..i + 1] == objects[..i] + [o] && objects == objects[..i + 1] + objects[i + 1..];
    TakeSplit(objects[..i], [o], budgets);
    TakeSplit(objects[..i + 1], objects[i + 1..], budgets);
    ObjectsConserve(objects[..i], budgets, o.category);
    TakeOne(o, left);
  }

  lemma {:induction false} FirstPassSplit(a: seq<Article>, b: seq<Article>, budgets: Budgets)
    ensures var (first, left) := FirstPass(a, budgets);
            var (second, remaining) := FirstPass(b, left);
            FirstPass(a + b, budgets) == (first + second, remaining)
    decreases |a|
  {
    hide WithAttachments;
    if a == [] {
      assert a + b == b && [] + FirstPass(b, budgets).0 == FirstPass(b, budgets).0;
    } else {
      var (kept, left) := TakeObjects(a[0].attachments, budgets);
      assert (a + b)[1..] == a[1..] + b;
      FirstPassSplit(a[1..], b, left);
      var (first, after) := FirstPass(a[1..], left);
      var mine, second := [WithAttachments(a[0], kept)], FirstPass(b, after).0;
      assert mine + (first + second) == (mine + first) + second;
    }
  }

  /** Each article is served before those behind it, from what the earlier ones leave of the budgets. */
  lemma ArticlesInOrder(articles: seq<Article>, budgets: Budgets, i: nat)
    requires i < |articles|
    ensures var (earlier, left) := FirstPass(articles[..i], budgets);
            && (forall category :: left.Get(category) == budgets.Get(category) - TotalIn(earlier, category))
            && FirstPass(articles[..i + 1], budgets).0
               == earlier + [WithAttachments(articles[i], TakeObjects(articles[i].attachments, left).0)]
            && FirstPass(articles[..i + 1], budgets).0 <= FirstPass(articles, budgets).0
  {
    hide TakeObjects, TotalIn, WithAttachments;
    var a, left := articles[i], FirstPass(articles[..i], budgets).1;
    assert articles[..i + 1] == articles[..i] + [a] && articles == articles[..i + 1] + articles[i + 1..];
    FirstPassSplit(articles[..i], [a], budgets);
    FirstPassSplit(articles[..i + 1], articles[i + 1..], budgets);
    FirstPassOne(a, left);
    hide FirstPass;
    var earlier := FirstPass(articles[..i], budgets).0;
    forall category ensures left.Get(category) == budgets.Get(category) - TotalIn(earlier, category) {
      FirstPassConserves(articles[..i], budgets, category);
    }
  }

  lemma FirstPassOne(a: Article, budgets: Budgets)
    ensures FirstPass([a], budgets).0 == [WithAttachments(a, TakeObjects(a.attachments, budgets).0)]
  {
    hide TakeObjects, WithAttachments;
    var (kept, left) := TakeObjects(a.attachments, budgets);
    assert [a][1..] == [] && FirstPass([], left) == ([], left);
    assert [WithAttachments(a, kept)] + [] == [WithAttachments(a, kept)];
  }

  lemma {:induction false} SpillSplit(a: seq<Spilled>, b: seq<Spilled>, leftover: nat)
    ensures var (first, left) := TakeSpilled(a, leftover);
            var (second, remaining) := TakeSpilled(b, left);
            TakeSpilled(a + b, leftover) == (first + second, remaining)
    decreases |a|
  {
    hide Size, Sized;
    if a == [] {
      assert a + b == b && [] + TakeSpilled(b, leftover).0 == TakeSpilled(b, leftover).0;
    } else {
      var u := a[0];
      assert (a + b)[1..] == a[1..] + b;
      if Size(u.item) <= leftover {
        SpillSplit(a[1..], b, leftover - Size(u.item));
        var (first, left) := TakeSpilled(a[1..], leftover - Size(u.item));
        var mine, second := [u.(item := Sized(u.item))], TakeSpilled(b, left).0;
        assert mine + (first + second) == (mine + first) + second;
      } else {
        SpillSplit(a[1..], b, leftover);
      }
    }
  }

  lemma SpillOnly(u: Spilled, leftover: nat)
    ensures TakeSpilled([u], leftover).0 == if Size(u.item) <= leftover then [Stamped(u)] else []
  {
    hide Size, Sized;
    assert [u][1..] == [];
    assert TakeSpilled([], leftover) == ([], leftover);
    if Size(u.item) <= leftover {
      var left := leftover - Size(u.item);
      assert TakeSpilled([], left) == ([], left) && [Stamped(u)] + [] == [Stamped(u)];
    }
  }

  /** The spill serves the unused objects in order too: the next one is taken if and only if it fits the
      pooled leftover less the bytes taken so far. */
  lemma SpilledInOrder(unused: seq<Spilled>, leftover: nat, i: nat)
    requires i < |unused|
    ensures var u, before := unused[i], TakeSpilled(unused[..i], leftover).0;
            var fits := Size(u.item) <= leftover - SpilledBytes(before);
            && TakeSpilled(unused[..i + 1], leftover).0
               == before + (if fits then [Spilled(u.owner, Sized(u.item))] else [])
            && TakeSpilled(unused[..i + 1], leftover).0 <= TakeSpilled(unused, leftover).0
  {
    hide TakeSpilled, Size, Sized;
    var u := unused[i];
    assert unused[..i + 1] == unused[..i] + [u] && unused == unused[..i + 1] + unused[i + 1..];
    SpillSplit(unused[..i], [u], leftover);
    SpillSplit(unused[..i + 1], unused[i + 1..], leftover);
    SpillConserves(unused[..i], leftover);
    SpillOnly(u, TakeSpilled(unused[..i], leftover).1);
  }

  lemma {:induction false} UnusedOfSnoc(owner: string, chosen: seq<Object>, objects: seq<Object>, o: Object)
    ensures UnusedOf(owner, chosen, objects + [o])
         == UnusedOf(owner, chosen, objects) + if exists c <- chosen :: c.url == o.url then [] else [Spilled(owner, o)]
  {
    if objects == [] {
      assert [] + [o] == [o] && [o][1..] == [];
      assert UnusedOf(owner, chosen, []) == [] && HasUrl(chosen, o.url) == exists c <- chosen :: c.url == o.url;
    } else {
      assert (objects + [o])[1..] == objects[1..] + [o] && (objects + [o])[0] == objects[0];
      UnusedOfSnoc(owner, chosen, objects[1..], o);
    }
  }

  lemma {:induction false} UnusedSnoc(articles: seq<Article>, a: Article)
    ensures Unused(articles + [a]) == Unused(articles) + UnusedOf(a.pmcid, a.attachments, a.all_attachments)
  {
    hide UnusedOf;
    if articles == [] {
      assert [] + [a] == [a] && [a][1..] == [] && Unused([]) == [];
    } else {
      assert (articles + [a])[1..] == articles[1..] + [a] && (articles + [a])[0] == articles[0];
      UnusedSnoc(articles[1..], a);
    }
  }

  /** The unused objects come article by article in the order each offers them: the k-th object of article
      i follows the earlier ones, with its owner, unless an attachment of the article has its url. */
  lemma UnusedInOrder(articles: seq<Article>, i: nat, k: nat)
    requires i < |articles| && k < |articles[i].all_attachments|
    ensures var a, o := articles[i], articles[i].all_attachments[k];
            var (mine, next) := (a.all_attachments[..k], a.all_attachments[..k + 1]);
            && Unused(articles[..i + 1])
               == Unused(articles[..i]) + UnusedOf(a.pmcid, a.attachments, a.all_attachments)
            && UnusedOf(a.pmcid, a.attachments, next) == UnusedOf(a.pmcid, a.attachments, mine)
               + if exists c <- a.attachments :: c.url == o.url then [] else [Spilled(a.pmcid, o)]
  {
    hide Unused, UnusedOf;
    var a := articles[i];
    assert articles[..i + 1] == articles[..i] + [a];
    assert a.all_attachments[..k + 1] == a.all_attachments[..k] + [a.all_attachments[k]];
    UnusedSnoc(articles[..i], a);
    UnusedOfSnoc(a.pmcid, a.attachments, a.all_attachments[..k], a.all_attachments[k]);
  }

  /** Among the spilled objects an article is given exactly those of its pmcid, in order. */
  lemma {:induction false} ExtraInOrder(pmcid: string, spilled: seq<Spilled>, s: Spilled)
    ensures ExtraFor(pmcid, spilled + [s])
         == ExtraFor(pmcid, spilled) + if s.owner == pmcid then [s.item] else []
  {
    if spilled == [] {
      assert [] + [s] == [s] && [s][1..] == [] && ExtraFor(pmcid, []) == [];
    } else {
      assert (spilled + [s])[1..] == spilled[1..] + [s] && (spilled + [s])[0] == spilled[0];
      ExtraInOrder(pmcid, spilled[1..], s);
    }
  }

  /** A positive stated size is kept as it is; an object without one is estimated by its category. */
  lemma SizeStated(o: Object)
    ensures var stated := if o.expected.Some? then o.expected.value else 0;
            && (stated > 0 ==> Sized(o) == o.(estimated := false) && Size(o) == stated)
            && (stated <= 0 ==> Sized(o) == o.(expected := Some(Size(o)), estimated := true))
            && (stated <= 0 && o.category == "pdf" ==> Size(o) == 2_097_152)
            && (stated <= 0 && o.category == "image" ==> Size(o) == 204_800)
            && (stated <= 0 && o.category !in {"pdf", "image"} ==> Size(o) == 1_048_576)
  {
  }

  /** Two images without a stated size and a budget for one: the first is kept. */
  lemma FirstImageWins(a: Object, b: Object)
    requires a.category == b.category == "image" && a.expected == b.expected == None
    ensures TakeObjects([a, b], Budgets(0, 204_800, 0))
         == ([a.(expected := Some(204_800), estimated := true)], Budgets(0, 0, 0))
  {
    var budgets, left := Budgets(0, 204_800, 0), Budgets(0, 0, 0);
    SizeStated(a);
    SizeStated(b);
    hide Size, Sized;
    assert [a, b][1..] == [b] && [b][1..] == [];
    assert TakeObjects([], left) == ([], left);
    assert TakeObjects([b], left) == ([], left);
    assert budgets.Put("image", 0) == left && [Sized(a)] + [] == [Sized(a)];
  }

  // ---------- When articles are conserved under every budget ----------

  ghost predicate Conserves(articles: seq<Article>, budgets: Budgets) {
    Total(Assign(articles, budgets)) + Spill(articles, budgets).1 == budgets.Sum()
  }

  /** No article offers anything while another one has its pmcid. */
  ghost predicate RepeatedOfferNothing(articles: seq<Article>) {
    forall a <- articles :: Multiplicity(articles, a.pmcid) > 1 ==> a.all_attachments == []
  }

  /** The attachments come from a PDF link, of category pdf, and from media links, whose category is a
      function of the url. */
  ghost predicate Normalized(articles: seq<Article>, classify: string -> string) {
    forall a <- articles, x <- a.attachments :: x.category == "pdf" || x.category == classify(x.url)
  }

  /** All of a budget in one category. */
  function OneBudget(category: string, bytes: nat): (b: Budgets)
    requires category in {"pdf", "image", "supplement"}
    ensures b.Get(category) == bytes == b.Sum()
    ensures forall c :: c != category ==> b.Get(c) == 0
  {
    Budgets(if category == "pdf" then bytes else 0, if category == "image" then bytes else 0,
            if category == "supplement" then bytes else 0)
  }

  /** A category with a budget that no attachment of a url has. */
  function Spared(category: string): (c: string)
    ensures c in {"image", "supplement"} && c != category
  {
    if category == "image" then "supplement" else "image"
  }

  function Sizes(objects: seq<Object>): nat {
    if objects == [] then 0 else Size(objects[0]) + Sizes(objects[1..])
  }

  /** The sizes of all attachments and of everything offered. */
  function AllSizes(articles: seq<Article>): (nat, nat) {
    if articles == [] then (0, 0)
    else
      var (kept, offered) := AllSizes(articles[1..]);
      (Sizes(articles[0].attachments) + kept, Sizes(articles[0].all_attachments) + offered)
  }

  function UnusedSizes(unused: seq<Spilled>): nat {
    if unused == [] then 0 else Size(unused[0].item) + UnusedSizes(unused[1..])
  }

  lemma {:induction false} ObjectsTakeAtMost(objects: seq<Object>, budgets: Budgets)
    ensures budgets.Sum() <= TakeObjects(objects, budgets).1.Sum() + Sizes(objects)
    decreases |objects|
  {
    hide Size;
    if objects != [] {
      var o := objects[0];
      var left := budgets.Get(o.category) - Size(o);
      ObjectsTakeAtMost(objects[1..], if left < 0 then budgets else budgets.Put(o.category, left));
    }
  }

  /** The first pass takes no more than all attachments together. */
  lemma {:induction false} FirstPassTakesAtMost(articles: seq<Article>, budgets: Budgets)
    ensures budgets.Sum() <= FirstPass(articles, budgets).1.Sum() + AllSizes(articles).0
    decreases |articles|
  {
    hide Sizes;
    if articles != [] {
      ObjectsTakeAtMost(articles[0].attachments, budgets);
      FirstPassTakesAtMost(articles[1..], TakeObjects(articles[0].attachments, budgets).1);
    }
  }

  lemma {:induction false} UnusedConcat(a: seq<Spilled>, b: seq<Spilled>)
    ensures UnusedSizes(a + b) == UnusedSizes(a) + UnusedSizes(b)
  {
    if a == [] {
      assert a + b == b;
    } else {
      assert (a + b)[1..] == a[1..] + b;
      UnusedConcat(a[1..], b);
    }
  }

  lemma {:induction false} UnusedOfAtMost(owner: string, chosen: seq<Object>, objects: seq<Object>)
    ensures UnusedSizes(UnusedOf(owner, chosen, objects)) <= Sizes(objects)
  {
    hide Size, HasUrl;
    if objects != [] {
      UnusedOfAtMost(owner, chosen, objects[1..]);
    }
  }

  lemma {:induction false} UnusedAtMost(articles: seq<Article>)
    ensures UnusedSizes(Unused(articles)) <= AllSizes(articles).1
  {
    hide UnusedOf, Sizes, UnusedSizes;
    if articles == [] {
      NothingUnused();
    } else {
      var a := articles[0];
      UnusedOfAtMost(a.pmcid, a.attachments, a.all_attachments);
      UnusedAtMost(articles[1..]);
      UnusedConcat(UnusedOf(a.pmcid, a.attachments, a.all_attachments), Unused(articles[1..]));
    }
  }

  lemma NothingUnused()
    ensures UnusedSizes([]) == 0
  {
  }

  lemma {:induction false} FirstPassKeepsOffers(articles: seq<Article>, budgets: Budgets)
    ensures AllSizes(FirstPass(articles, budgets).0).1 == AllSizes(articles).1
    decreases |articles|
  {
    hide Sizes;
    if articles != [] {
      FirstPassKeepsOffers(articles[1..], TakeObjects(articles[0].attachments, budgets).1);
    }
  }

  /** A leftover that suffices for all is spent on all. */
  lemma {:induction false} SpillTakesAll(unused: seq<Spilled>, leftover: nat)
    requires UnusedSizes(unused) <= leftover
    ensures forall u <- unused :: Stamped(u) in TakeSpilled(unused, leftover).0
    decreases |unused|
  {
    hide Size, Sized;
    if unused != [] {
      assert unused == [unused[0]] + unused[1..];
      SpillTakesAll(unused[1..], leftover - Size(unused[0].item));
    }
  }

  /** An object of a category without a budget is not kept. */
  lemma {:induction false} KeptHasBudget(objects: seq<Object>, budgets: Budgets, k: Object)
    requires k in TakeObjects(objects, budgets).0
    ensures budgets.Get(k.category) > 0
    ensures exists o <- objects :: k == Sized(o)
    decreases |objects|
  {
    hide Size, Sized;
    var o := objects[0];
    var left := budgets.Get(o.category) - Size(o);
    if left < 0 {
      KeptHasBudget(objects[1..], budgets, k);
      var x :| x in objects[1..] && k == Sized(x);
      assert x in objects;
    } else if k != Sized(o) {
      KeptHasBudget(objects[1..], budgets.Put(o.category, left), k);
      var x :| x in objects[1..] && k == Sized(x);
      assert x in objects;
    }
  }

  lemma {:induction false} FirstPassKeptHasBudget(articles: seq<Article>, budgets: Budgets, i: nat, k: Object)
    requires i < |articles| && k in FirstPass(articles, budgets).0[i].attachments
    ensures budgets.Get(k.category) > 0
    ensures exists o <- articles[i].attachments :: k == Sized(o)
    decreases i
  {
    hide Size, Sized;
    var (kept, left) := TakeObjects(articles[0].attachments, budgets);
    if i == 0 {
      KeptHasBudget(articles[0].attachments, budgets, k);
    } else {
      FirstPassKeptHasBudget(articles[1..], left, i - 1, k);
      ObjectsMaximal(articles[0].attachments, budgets);
      assert left.Get(k.category) <= budgets.Get(k.category);
    }
  }

  /** An object stays unused when the only budget is in a category that no attachment of its url has. */
  lemma StaysUnused(articles: seq<Article>, budgets: Budgets, i: nat, o: Object)
    requires i < |articles| && o in articles[i].all_attachments
    requires forall x <- articles[i].attachments :: x.url == o.url ==> budgets.Get(x.category) == 0
    ensures Spilled(articles[i].pmcid, o) in Unused(FirstPass(articles, budgets).0)
  {
    hide Unused, FirstPass, Size, KeepsAllThatFit;
    var (kept, remaining) := FirstPass(articles, budgets);
    var a := kept[i];
    FirstPassMaximal(articles, budgets, i);
    forall k | k in a.attachments ensures k.url != o.url {
      FirstPassKeptHasBudget(articles, budgets, i, k);
    }
    UnusedHolds(kept);
    assert a in kept && o in a.all_attachments;
  }

  /** A budget as large as everything leaves enough for everything unused. */
  lemma EnoughLeft(articles: seq<Article>, budgets: Budgets)
    requires budgets.Sum() >= AllSizes(articles).0 + AllSizes(articles).1
    ensures var (kept, remaining) := FirstPass(articles, budgets);
            UnusedSizes(Unused(kept)) <= remaining.Sum()
  {
    hide AllSizes, FirstPass, Unused, UnusedSizes;
    FirstPassTakesAtMost(articles, budgets);
    FirstPassKeepsOffers(articles, budgets);
    UnusedAtMost(FirstPass(articles, budgets).0);
  }

  /** With everything in a category that no attachment of the url has, an object of the url is spilled. */
  lemma SparedIsSpilled(articles: seq<Article>, i: nat, o: Object, budgets: Budgets)
    requires i < |articles| && o in articles[i].all_attachments
    requires budgets.Sum() >= AllSizes(articles).0 + AllSizes(articles).1
    requires forall x <- articles[i].attachments :: x.url == o.url ==> budgets.Get(x.category) == 0
    ensures exists s <- Spill(articles, budgets).0 :: s.owner == articles[i].pmcid
  {
    hide TakeSpilled, Unused, FirstPass, Size, Sized, AllSizes, UnusedSizes;
    EnoughLeft(articles, budgets);
    StaysUnused(articles, budgets, i, o);
    var (kept, remaining) := FirstPass(articles, budgets);
    var u := Spilled(articles[i].pmcid, o);
    UnusedPositive(Unused(kept), u);
    SpillTakesAll(Unused(kept), remaining.Sum());
    assert Stamped(u) in Spill(articles, budgets).0;
  }

  lemma UnusedPositive(unused: seq<Spilled>, u: Spilled)
    requires u in unused
    ensures UnusedSizes(unused) > 0
  {
    hide Size;
  }

  /** For normalized articles: assignment conserves every budget if and only if no article offers anything
      while another one has its pmcid. */
  lemma ConservesAlwaysExactly(articles: seq<Article>, classify: string -> string)
    requires Normalized(articles, classify)
    ensures (forall budgets: Budgets :: Conserves(articles, budgets)) <==> RepeatedOfferNothing(articles)
  {
    hide Conserves, Spill;
    if RepeatedOfferNothing(articles) {
      forall budgets: Budgets ensures Conserves(articles, budgets) {
        OffersNothingConserves(articles, budgets);
      }
    } else {
      var a :| a in articles && Multiplicity(articles, a.pmcid) > 1 && a.all_attachments != [];
      var i :| 0 <= i < |articles| && articles[i] == a;
      var o := a.all_attachments[0];
      var budgets := OneBudget(Spared(classify(o.url)), AllSizes(articles).0 + AllSizes(articles).1);
      SparedIsSpilled(articles, i, o, budgets);
      SpilledTwice(articles, budgets, a.pmcid);
    }
  }

  lemma SpilledTwice(articles: seq<Article>, budgets: Budgets, pmcid: string)
    requires Multiplicity(articles, pmcid) > 1 && exists s <- Spill(articles, budgets).0 :: s.owner == pmcid
    ensures !Conserves(articles, budgets)
  {
    hide Total, Assign, Spill;
    AssignConservesExactly(articles, budgets);
  }

  /** What is spilled was offered by an article of its owner's pmcid. */
  lemma {:induction false} UnusedIsOffered(articles: seq<Article>, u: Spilled)
    requires u in Unused(articles)
    ensures exists a <- articles :: a.pmcid == u.owner && u.item in a.all_attachments
  {
    var a := articles[0];
    var mine := UnusedOf(a.pmcid, a.attachments, a.all_attachments);
    if u in mine {
      UnusedOfIsOffered(a.pmcid, a.attachments, a.all_attachments, u);
      assert a in articles;
    } else {
      UnusedIsOffered(articles[1..], u);
      var b :| b in articles[1..] && b.pmcid == u.owner && u.item in b.all_attachments;
      assert b in articles;
    }
  }

  lemma {:induction false} UnusedOfIsOffered(owner: string, chosen: seq<Object>, objects: seq<Object>, u: Spilled)
    requires u in UnusedOf(owner, chosen, objects)
    ensures u.owner == owner && u.item in objects
  {
    hide HasUrl;
    if u != Spilled(owner, objects[0]) {
      UnusedOfIsOffered(owner, chosen, objects[1..], u);
    }
  }

  lemma OffersNothingConserves(articles: seq<Article>, budgets: Budgets)
    requires RepeatedOfferNothing(articles)
    ensures Conserves(articles, budgets)
  {
    hide Unused, TakeSpilled, FirstPass, Assign, Total, Size, Sized;
    var taken := Spill(articles, budgets).0;
    var (kept, remaining) := FirstPass(articles, budgets);
    SpillMaximal(Unused(kept), remaining.Sum());
    forall s | s in taken ensures Multiplicity(articles, s.owner) == 1 {
      var u :| u in Unused(kept) && s == Stamped(u);
      UnusedHolds(kept);
      UnusedIsOffered(kept, u);
      var b :| b in kept && b.pmcid == u.owner && u.item in b.all_attachments;
      var i :| 0 <= i < |kept| && kept[i] == b;
      FirstPassMaximal(articles, budgets, i);
      FirstPassKeepsIds(articles, budgets, s.owner);
      assert articles[i] in articles;
    }
    AssignConservesExactly(articles, budgets);
  }

  /** Two articles with one pmcid are both given what spills to either: 3 budgeted bytes become 4
      assigned ones, with nothing left over. */
  lemma RepeatedIdExceedsBudget(o: Object, p: Object, a: Article, b: Article)
    requires o == Object("u", "supplement", Some(1), false) && p == Object("v", "pdf", Some(2), false)
    requires a.pmcid == b.pmcid == "PMC1"
    requires a.attachments == a.all_attachments == [p, o] && b.attachments == b.all_attachments == []
    ensures Total(Assign([a, b], Budgets(3, 0, 0))) == 4 && Spill([a, b], Budgets(3, 0, 0)).1 == 0
  {
    hide TakeObjects, FirstPass, Unused, TakeSpilled, Credited, Total, Assign, Spill, ArticleBytes, Size;
    var a', b' := WithAttachments(a, [p]), WithAttachments(b, []);
    var budgets, left := Budgets(3, 0, 0), Budgets(1, 0, 0);
    TakeFirst(o, p, budgets, left);
    FirstPassTwo(a, b, [p], budgets, left);
    UnusedTwo(o, p, a', b');
    SpillOne(o);
    TotalsOfTwo(o, p, a', b');
    AssignAll([a, b], budgets, [a', b'], left, [Spilled("PMC1", o)]);
  }

  lemma AssignAll(articles: seq<Article>, budgets: Budgets, kept: seq<Article>, left: Budgets, spilled: seq<Spilled>)
    requires FirstPass(articles, budgets) == (kept, left) && left.Sum() > 0
    requires TakeSpilled(Unused(kept), left.Sum()) == (spilled, 0)
    ensures Total(Assign(articles, budgets)) == Total(kept) + Credited(spilled, kept)
    ensures Spill(articles, budgets).1 == 0
  {
    hide FirstPass, Unused, TakeSpilled, Credited, Total, Merge;
    MergeTotal(kept, spilled);
  }

  lemma TakeFirst(o: Object, p: Object, budgets: Budgets, left: Budgets)
    requires o == Object("u", "supplement", Some(1), false) && p == Object("v", "pdf", Some(2), false)
    requires budgets == Budgets(3, 0, 0) && left == Budgets(1, 0, 0)
    ensures TakeObjects([p, o], budgets) == ([p], left)
  {
    assert [p, o][1..] == [o] && [o][1..] == [];
    assert left.Get(o.category) - Size(o) < 0;
    assert TakeObjects([], left) == ([], left);
    assert TakeObjects([o], left) == ([], left);
    assert budgets.Get(p.category) - Size(p) == 1 && budgets.Put(p.category, 1) == left;
    assert Sized(p) == p && [p] + [] == [p];
  }

  lemma FirstPassTwo(a: Article, b: Article, kept: seq<Object>, budgets: Budgets, left: Budgets)
    requires b.attachments == [] && TakeObjects(a.attachments, budgets) == (kept, left)
    ensures FirstPass([a, b], budgets) == ([WithAttachments(a, kept), WithAttachments(b, [])], left)
  {
    assert [a, b][1..] == [b] && [b][1..] == [];
    var a', b' := WithAttachments(a, kept), WithAttachments(b, []);
    assert FirstPass([], left) == ([], left) && TakeObjects([], left) == ([], left);
    assert [b'] + [] == [b'] && [a'] + [b'] == [a', b'];
    assert FirstPass([b], left) == ([b'], left);
  }

  lemma UnusedTwo(o: Object, p: Object, a: Article, b: Article)
    requires o.url == "u" && p.url == "v" && a.pmcid == "PMC1"
    requires a.attachments == [p] && a.all_attachments == [p, o] && b.all_attachments == []
    ensures Unused([a, b]) == [Spilled("PMC1", o)]
  {
    assert [p, o][1..] == [o] && [o][1..] == [];
    assert p in [p] && HasUrl([p], "v") && !HasUrl([p], "u");
    assert UnusedOf("PMC1", [p], []) == [];
    assert UnusedOf("PMC1", [p], [o]) == [Spilled("PMC1", o)];
    assert [a, b][1..] == [b] && [b][1..] == [];
    assert Unused([b]) == [];
  }

  lemma SpillOne(o: Object)
    requires o == Object("u", "supplement", Some(1), false)
    ensures TakeSpilled([Spilled("PMC1", o)], 1) == ([Spilled("PMC1", o)], 0)
  {
    var taken := [Spilled("PMC1", o)];
    assert Sized(o) == o && taken[1..] == [] && taken == [taken[0].(item := o)] + [];
    assert TakeSpilled([], 0) == ([], 0);
  }

  lemma TotalsOfTwo(o: Object, p: Object, a: Article, b: Article)
    requires o.expected == Some(1) && p.expected == Some(2) && a.attachments == [p] && b.attachments == []
    requires a.pmcid == b.pmcid == "PMC1"
    ensures Credited([Spilled("PMC1", o)], [a, b]) == 2 && Total([a, b]) == 2
  {
    assert [a, b][1..] == [b] && [b][1..] == [] && [p][1..] == [] && [Spilled("PMC1", o)][1..] == [];
    assert Multiplicity([], "PMC1") == 0 && Multiplicity([b], "PMC1") == 1;
    assert Multiplicity([a, b], "PMC1") == 2 && Credited([], [a, b]) == 0;
    assert Bytes([]) == 0 && Bytes([p]) == 2 && Total([]) == 0 && Total([b]) == 0;
  }
}
