/**
 * The nested review and comment endpoints (ReviewViewSet and CommentViewSet in
 * api_yamdb/api/views.py): which permission a request is checked against, and
 * how the title_id and review_id path segments scope listing and creation.
 *
 * The tables are a Catalog value; primary keys are the natural numbers the
 * URL patterns accept. A new row's key is supplied by the database and is
 * passed in, fresh for its table.
 */
module Nested {

  /** The viewset actions the router dispatches to. */
  datatype Action = List | Retrieve | Create | Update | PartialUpdate | Destroy

  /** The permission classes the two viewsets use. */
  datatype Permission = IsAuthenticated | IsAuthorAdminModerateOrReadOnly

  datatype Review = Review(titleId: nat, author: string, text: string, score: int)

  datatype Comment = Comment(reviewId: nat, author: string, text: string)

  datatype Catalog = Catalog(titles: set<nat>, reviews: map<nat, Review>, comments: map<nat, Comment>)

  /** The outcome of a lookup through get_object_or_404. */
  datatype Lookup<T> = NotFound | Found(value: T)

  /** Foreign keys point at rows that exist. */
  predicate Valid(c: Catalog)
  {
    && (forall id :: id in c.reviews ==> c.reviews[id].titleId in c.titles)
    && (forall id :: id in c.comments ==> c.comments[id].reviewId in c.reviews)
  }

  /**
   * get_permissions of both viewsets: creating needs only an authenticated user;
   * every other action keeps the class-level author/admin/moderator-or-read-only check.
   */
  function Permissions(action: Action): (p: seq<Permission>)
    ensures |p| == 1
    ensures p[0] == IsAuthenticated <==> action == Create
    ensures p[0] == IsAuthorAdminModerateOrReadOnly <==> action != Create
  {
    if action == Create then [IsAuthenticated] else [IsAuthorAdminModerateOrReadOnly]
  }

  // ---------------------------------------------------------------------------
  // Reviews, under /titles/{title_id}/reviews
  // ---------------------------------------------------------------------------

  /** The reviews of the title in the path, or not-found when there is no such title. */
  function ReviewQueryset(c: Catalog, titleId: nat): (r: Lookup<set<nat>>)
    ensures r.NotFound? <==> titleId !in c.titles
    ensures r.Found? ==> forall id :: id in r.value <==> id in c.reviews && c.reviews[id].titleId == titleId
  {
    if titleId !in c.titles then NotFound
    else Found(set id | id in c.reviews && c.reviews[id].titleId == titleId)
  }

  /** Saves a review by the requesting user on the title in the path, or not-found when there is no such title. */
  function ReviewCreate(c: Catalog, titleId: nat, author: string, text: string, score: int, id: nat): (r: Lookup<Catalog>)
    requires id !in c.reviews
    ensures r.NotFound? <==> titleId !in c.titles
    ensures r.Found? ==> r.value.titles == c.titles && r.value.comments == c.comments
    ensures r.Found? ==> r.value.reviews == c.reviews[id := Review(titleId, author, text, score)]
  {
    if titleId !in c.titles then NotFound
    else Found(c.(reviews := c.reviews[id := Review(titleId, author, text, score)]))
  }

  /** A created review is listed under its title, and the catalog stays consistent. */
  lemma ReviewCreateListed(c: Catalog, titleId: nat, author: string, text: string, score: int, id: nat)
    requires Valid(c)
    requires id !in c.reviews
    requires ReviewCreate(c, titleId, author, text, score, id).Found?
    ensures var c' := ReviewCreate(c, titleId, author, text, score, id).value;
            Valid(c') &&
            ReviewQueryset(c', titleId) == Found(ReviewQueryset(c, titleId).value + {id})
  {
    var c' := ReviewCreate(c, titleId, author, text, score, id).value;
    var before, after := ReviewQueryset(c, titleId).value, ReviewQueryset(c', titleId).value;
    assert after == before + {id} by {
      forall k ensures k in after <==> k in before + {id} {
      }
    }
  }

  // ---------------------------------------------------------------------------
  // Comments, under /titles/{title_id}/reviews/{review_id}/comments
  // ---------------------------------------------------------------------------

  /** The review with the given key AND the given title, or not-found. */
  function ScopedReview(c: Catalog, titleId: nat, reviewId: nat): (r: Lookup<Review>)
    ensures r.Found? <==> reviewId in c.reviews && c.reviews[reviewId].titleId == titleId
    ensures r.Found? ==> r.value == c.reviews[reviewId]
  {
    if reviewId in c.reviews && c.reviews[reviewId].titleId == titleId then Found(c.reviews[reviewId])
    else NotFound
  }

  /** The comments of the scoped review, or not-found. */
  function CommentQueryset(c: Catalog, titleId: nat, reviewId: nat): (r: Lookup<set<nat>>)
    ensures r.Found? <==> ScopedReview(c, titleId, reviewId).Found?
    ensures r.Found? ==> forall id :: id in r.value <==> id in c.comments && c.comments[id].reviewId == reviewId
  {
    match ScopedReview(c, titleId, reviewId)
    case NotFound => NotFound
    case Found(_) => Found(set id | id in c.comments && c.comments[id].reviewId == reviewId)
  }

  /** Saves a comment by the requesting user on the scoped review, or not-found. */
  function CommentCreate(c: Catalog, titleId: nat, reviewId: nat, author: string, text: string, id: nat): (r: Lookup<Catalog>)
    requires id !in c.comments
    ensures r.Found? <==> ScopedReview(c, titleId, reviewId).Found?
    ensures r.Found? ==> r.value.titles == c.titles && r.value.reviews == c.reviews
    ensures r.Found? ==> r.value.comments == c.comments[id := Comment(reviewId, author, text)]
  {
    match ScopedReview(c, titleId, reviewId)
    case NotFound => NotFound
    case Found(_) => Found(c.(comments := c.comments[id := Comment(reviewId, author, text)]))
  }

  /** A review that exists under another title does not resolve: both path segments must agree. */
  lemma CommentWrongTitle(c: Catalog, titleId: nat, reviewId: nat, author: string, text: string, id: nat)
    requires reviewId in c.reviews && c.reviews[reviewId].titleId != titleId
    requires id !in c.comments
    ensures CommentQueryset(c, titleId, reviewId) == NotFound
    ensures CommentCreate(c, titleId, reviewId, author, text, id) == NotFound
  {
  }

  /** When the comment path resolves, so does the review path, and the review is listed under that title. */
  lemma CommentPathImpliesReviewPath(c: Catalog, titleId: nat, reviewId: nat)
    requires Valid(c)
    requires CommentQueryset(c, titleId, reviewId).Found?
    ensures ReviewQueryset(c, titleId).Found?
    ensures reviewId in ReviewQueryset(c, titleId).value
  {
  }

  /** A created comment is listed under its review, and the catalog stays consistent. */
  lemma CommentCreateListed(c: Catalog, titleId: nat, reviewId: nat, author: string, text: string, id: nat)
    requires Valid(c)
    requires id !in c.comments
    requires CommentCreate(c, titleId, reviewId, author, text, id).Found?
    ensures var c' := CommentCreate(c, titleId, reviewId, author, text, id).value;
            Valid(c') &&
            CommentQueryset(c', titleId, reviewId) == Found(CommentQueryset(c, titleId, reviewId).value + {id})
  {
    var c' := CommentCreate(c, titleId, reviewId, author, text, id).value;
    var before, after := CommentQueryset(c, titleId, reviewId).value, CommentQueryset(c', titleId, reviewId).value;
    assert after == before + {id} by {
      forall k ensures k in after <==> k in before + {id} {
      }
    }
  }
}
