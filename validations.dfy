/** The two JSON Schema documents request bodies are checked against before a
    post or a comment is created, as predicates. Only the keywords of the JSON
    Schema draft-07 Validation vocabulary that the documents use are modelled:
    `type` (section 6.1.1), `enum` (section 6.1.2), `pattern` (section 6.3.3),
    `required` (section 6.5.3) and `properties` (section 6.5.4). `format` is an
    annotation and is not asserted. */
module Validations {
  import opened Wrappers
  import opened Json
  import Models

  /** The `enum` of the `category` property. */
  const CategoryEnum: seq<string> := [
    "Books and Magazines",
    "Entertainment",
    "Electronics",
    "Food and Beverage",
    "Clothing",
    "Health and Beauty"
  ]

  const PostRequired: seq<string> := ["start_date", "end_date", "title", "category"]

  // --- draft-07 keywords -----------------------------------------------------

  predicate TypeString(v: Json) { v.JStr? }

  /** `enum`: the instance equals one of the listed values. */
  predicate EnumOf(v: Json, names: seq<string>) { v.JStr? && v.s in names }

  /** `required`: every listed member is present. */
  predicate Required(m: map<string, Json>, names: seq<string>)
  {
    forall n :: n in names ==> n in m
  }

  predicate StartsWith(s: string, prefix: string)
  {
    |prefix| <= |s| && s[..|prefix|] == prefix
  }

  /** `pattern: "^https?://"`. Like every string keyword, `pattern` accepts any
      instance that is not a string. */
  predicate UrlPattern(v: Json)
  {
    v.JStr? ==> StartsWith(v.s, "http://") || StartsWith(v.s, "https://")
  }

  /** A member that `properties` types as `{"type": "string"}`. */
  predicate StringMember(m: map<string, Json>, key: string)
  {
    key in m ==> TypeString(m[key])
  }

  // --- the documents ---------------------------------------------------------

  /** `create_post_schema`. */
  predicate ValidCreatePost(body: Json)
    ensures ValidCreatePost(body) ==> body.JObject? && "title" in body.members && body.members["title"].JStr?
  {
    && body.JObject?
    && StringMember(body.members, "start_date")
    && StringMember(body.members, "end_date")
    && StringMember(body.members, "title")
    && ("category" in body.members ==>
          TypeString(body.members["category"]) && EnumOf(body.members["category"], CategoryEnum))
    && StringMember(body.members, "description")
    && ("url" in body.members ==> UrlPattern(body.members["url"]))
    && StringMember(body.members, "coupon_code")
    && Required(body.members, PostRequired)
  }

  /** `create_comment_input`. */
  predicate ValidCreateComment(body: Json)
    ensures ValidCreateComment(body) ==> body.JObject? && "text" in body.members && body.members["text"].JStr?
  {
    && body.JObject?
    && StringMember(body.members, "text")
    && Required(body.members, ["text"])
  }

  // --- what the documents accept and reject ------------------------------------

  lemma PostRejectsNonObject(body: Json)
    requires !body.JObject?
    ensures !ValidCreatePost(body) && !ValidCreateComment(body)
  {
  }

  /** A post body missing any of start_date, end_date, title, category is rejected. */
  lemma PostRejectsMissingRequired(body: Json, key: string)
    requires body.JObject? && key in PostRequired && key !in body.members
    ensures !ValidCreatePost(body)
  {
  }

  /** A post body whose category is not one of the six names is rejected. */
  lemma PostRejectsUnknownCategory(body: Json)
    requires body.JObject? && "category" in body.members
    requires !(body.members["category"].JStr? && body.members["category"].s in CategoryEnum)
    ensures !ValidCreatePost(body)
  {
  }

  /** A post body whose string url starts neither with http:// nor with https:// is rejected. */
  lemma PostRejectsBadUrl(body: Json)
    requires body.JObject? && "url" in body.members && body.members["url"].JStr?
    requires !StartsWith(body.members["url"].s, "http://") && !StartsWith(body.members["url"].s, "https://")
    ensures !ValidCreatePost(body)
  {
  }

  /** The url definition has no `type`, so a url that is not a string passes. */
  lemma PostAcceptsNumericUrl()
    ensures ValidCreatePost(JObject(map[
      "start_date" := JStr("2024-01-01"), "end_date" := JStr("2024-01-31"),
      "title" := JStr("Sale"), "category" := JStr("Clothing"), "url" := JNum(42)]))
  {
  }

  /** Present title, description, coupon_code (and the two dates) must be strings. */
  lemma PostRejectsNonStringField(body: Json, key: string)
    requires body.JObject? && key in ["start_date", "end_date", "title", "description", "coupon_code"]
    requires key in body.members && !body.members[key].JStr?
    ensures !ValidCreatePost(body)
  {
  }

  /** A comment body is accepted exactly when it is an object with a string `text`. */
  lemma CommentValidIff(body: Json)
    ensures ValidCreateComment(body) <==>
      body.JObject? && "text" in body.members && body.members["text"].JStr?
  {
  }

  /** The category enum is the seeded list. */
  lemma EnumIsSeedList()
    ensures CategoryEnum == Models.SeedNames
  {
  }

  /** An accepted post body names a seeded category by a string, and carries
      string start_date, end_date and title. */
  lemma {:induction false} ValidPostShape(body: Json)
    requires ValidCreatePost(body)
    ensures "category" in body.members && body.members["category"].JStr?
    ensures body.members["category"].s in Models.SeedNames
    ensures forall k :: k in PostRequired ==> k in body.members && body.members[k].JStr?
  {
    assert "category" in PostRequired;
    forall k | k in PostRequired ensures k in body.members && body.members[k].JStr? {
      assert k == "start_date" || k == "end_date" || k == "title" || k == "category";
    }
  }

  /** After seeding, `Post.from_json` resolves every accepted body's category. */
  lemma {:induction false} ValidPostResolves(body: Json, cats: seq<Models.Category>)
    requires ValidCreatePost(body)
    requires forall n :: n in Models.SeedNames ==> Models.HasCategoryNamed(cats, n)
    ensures Models.PostFromJson(body.members, cats).Some?
  {
    ValidPostShape(body);
    var n := body.members["category"].s;
    var i :| 0 <= i < |cats| && cats[i].name == n;
    assert Models.NamesCategory(body.members, cats[i]);
  }
}
