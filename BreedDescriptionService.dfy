/**
  The breed description service of the chicken picker client: descriptions of
  the American Poultry Association classes and of breed purposes, the
  conversion of a breed's purpose string into a list of purposes, and the
  image path attached to every breed record.
*/
module BreedDescriptionService {
  import opened Wrappers
  import opened JsStrings

  // ---------------------------------------------------------------------
  // The two description tables (fixed for the life of the service)
  // ---------------------------------------------------------------------

  const ClassDescriptions: map<string, string> := map[
    "American" := "The American Class contains thirteen breeds which originated in Canada or the United States. All are heavy breeds, and most lay brown eggs; most are cold-hardy",
    "Asiatic" := "These three breeds originate in China; they are large, feather legged, and lay brown eggs.",
    "Continental" := "This group consists of eleven breeds from Belgium, France, Germany, and the Netherlands. They are mostly sprightly birds, the Faverolles being an exception.",
    "All Other Standard Breeds" := "Other breeds are grouped in this class, which has three subclasses: Game, Oriental, and Miscellaneous. The Game subclass includes the non-oriental game birds, the Oriental subclass includes mainly birds from Asia; the Cubalaya, however, is from Cuba. The Miscellaneous subclass holds the remaining breeds.",
    "Mediterranean" := "These breeds originating in Italy and Spain have white earlobes and tend to be productive layers of white eggs. In general they are flighty, and exceptional free-range birds, with both evasion and foraging skills.",
    "English" := "This class consists of five breeds from the United Kingdom and one from Australia.",
    "Not Listed" := "There are many breeds not listed in the American Poultry Association's Standards of Perfection."
  ]

  const PurposeDescriptions: map<string, string> := map[
    "Eggs" := "These breeds are used primarily for egg production. The egg layer is leaner and rangier in body type. It will lay more eggs, as a general rule.",
    "Meat" := "These breeds are used primarily for meat production. Meat birds have a blockier body that fills out with muscle for meat. It will lay fewer eggs, as a general rule.",
    "Ornamental" := "These breeds are primarily ornamental and do produce many eggs or much meat.",
    "Exhibition" := "These breeds are often shown in poultry competitions.",
    "Feathers" := "These breeds are prized for their particularly beautiful feathers.",
    "Broody hens" := "These breeds produce particularly good hens for brooding and raising chicks.",
    "Dual-purpose" := "The dual purpose chicken is intended to grow a good body, adequate for putting meat on the table, and lay a nice quantity of eggs. The dual purpose chicken will not provide as large a carcass as a meat bird, nor lay as many eggs as an egg layer."
  ]

  /** Looking up a key that the table holds as its own entry; any other key is absent. */
  function Lookup(table: map<string, string>, key: string): (r: Option<string>)
    ensures r.Some? <==> key in table
    ensures r.Some? ==> r.value == table[key]
  {
    if key in table then Some(table[key]) else None
  }

  // ---------------------------------------------------------------------
  // convertPurpose
  // ---------------------------------------------------------------------

  const PurposeSeparator: string := ", "
  const DualPurpose: string := "Dual-purpose"

  /** Both `indexOf('meat')` and `indexOf('eggs')` are greater than -1. */
  function IsDualPurpose(tokens: seq<string>): (b: bool)
    ensures b <==> "meat" in tokens && "eggs" in tokens
  {
    IndexOf(tokens, "meat") > -1 && IndexOf(tokens, "eggs") > -1
  }

  /**
    Splits a purpose string on ", "; a breed kept for both meat and eggs is
    reported as the single purpose "Dual-purpose", any other breed keeps its
    tokens as they are.
  */
  function ConvertPurpose(purposes: string): (r: seq<string>)
    ensures |r| >= 1
    ensures forall i :: 0 <= i < |r| ==> !Contains(r[i], PurposeSeparator)
    ensures IsDualPurpose(Split(purposes, PurposeSeparator)) ==> r == [DualPurpose]
    ensures !IsDualPurpose(Split(purposes, PurposeSeparator)) ==> Join(r, PurposeSeparator) == purposes
  {
    var tokens := Split(purposes, PurposeSeparator);
    JoinSplit(purposes, PurposeSeparator);
    SplitAvoidsSeparator(purposes, PurposeSeparator);
    DualPurposeHasNoSeparator();
    if IsDualPurpose(tokens) then [DualPurpose] else tokens
  }

  /** The separator ", " cannot overlap itself. */
  lemma PurposeSeparatorNoSelfOverlap()
    ensures NoSelfOverlap(PurposeSeparator)
  {
    assert PurposeSeparator[1..] == " " && PurposeSeparator[..1] == ",";
  }

  /** "Dual-purpose" holds no separator. */
  lemma DualPurposeHasNoSeparator()
    ensures !Contains(DualPurpose, PurposeSeparator)
  {
    SeparatorFreeByComma(DualPurpose);
  }

  /** "Dual-purpose" holds no separator, so it splits into itself. */
  lemma DualPurposeSplitsToItself()
    ensures Split(DualPurpose, PurposeSeparator) == [DualPurpose]
  {
    DualPurposeHasNoSeparator();
    SplitSeparatorFree(DualPurpose, PurposeSeparator);
  }

  /** A string without a comma does not contain ", ". */
  lemma {:induction false} SeparatorFreeByComma(s: string)
    requires ',' !in s
    ensures !Contains(s, PurposeSeparator)
    decreases |s|
  {
    if |s| > 0 {
      assert s == [s[0]] + s[1..];
      assert s[0] != ',' && ',' !in s[1..];
      SeparatorFreeByComma(s[1..]);
      assert |s| >= 2 ==> s[..2][0] == s[0];
    }
  }

  /**
    The result is ["Dual-purpose"] exactly when the tokens hold both "meat" and
    "eggs", or when the input is "Dual-purpose" itself (which passes through
    as its only token).
  */
  lemma ConvertPurposeCollapsesIff(purposes: string)
    ensures var tokens := Split(purposes, PurposeSeparator);
      ConvertPurpose(purposes) == [DualPurpose]
      <==> ("meat" in tokens && "eggs" in tokens) || purposes == DualPurpose
  {
    var tokens := Split(purposes, PurposeSeparator);
    if purposes == DualPurpose {
      DualPurposeSplitsToItself();
    }
    if !IsDualPurpose(tokens) && ConvertPurpose(purposes) == [DualPurpose] {
      assert Join([DualPurpose], PurposeSeparator) == DualPurpose;
    }
  }

  /**
    When the rule does not fire, the result is the one sequence of
    separator-free tokens that joins back to the input: order, case and
    duplicates are those of the input.
  */
  lemma ConvertPurposeKeepsTokens(purposes: string, tokens: seq<string>)
    requires |tokens| >= 1 && Join(tokens, PurposeSeparator) == purposes
    requires forall i :: 0 <= i < |tokens| ==> !Contains(tokens[i], PurposeSeparator)
    requires !("meat" in tokens && "eggs" in tokens)
    ensures ConvertPurpose(purposes) == tokens
  {
    PurposeSeparatorNoSelfOverlap();
    SplitJoin(tokens, PurposeSeparator);
  }

  /** Comma-free tokens joined with ", " split back into the same tokens. */
  lemma SplitCommaFreeTokens(tokens: seq<string>)
    requires |tokens| >= 1
    requires forall i :: 0 <= i < |tokens| ==> ',' !in tokens[i]
    ensures Split(Join(tokens, PurposeSeparator), PurposeSeparator) == tokens
  {
    forall i | 0 <= i < |tokens| ensures !Contains(tokens[i], PurposeSeparator) {
      SeparatorFreeByComma(tokens[i]);
    }
    PurposeSeparatorNoSelfOverlap();
    SplitJoin(tokens, PurposeSeparator);
  }

  // The examples below take the input as a parameter fixed by `requires`:
  // this keeps the solver from unfolding `Split` on the string literal.

  /** A breed kept for meat and eggs is dual-purpose, whichever token comes first. */
  lemma ConvertPurposeMeatAndEggs(s: string)
    requires s == "meat, eggs" || s == "eggs, meat"
    ensures ConvertPurpose(s) == [DualPurpose]
  {
    if s == "meat, eggs" {
      SplitCommaFreeTokens(["meat", "eggs"]);
      assert Join(["meat", "eggs"], PurposeSeparator) == s;
      assert Split(s, PurposeSeparator) == ["meat", "eggs"];
    } else {
      SplitCommaFreeTokens(["eggs", "meat"]);
      assert Join(["eggs", "meat"], PurposeSeparator) == s;
      assert Split(s, PurposeSeparator) == ["eggs", "meat"];
    }
    assert IsDualPurpose(Split(s, PurposeSeparator));
  }

  /** Otherwise the tokens come back as written, in order. */
  lemma ConvertPurposeMeatAndOrnamental(s: string)
    requires s == "meat, ornamental"
    ensures ConvertPurpose(s) == ["meat", "ornamental"]
  {
    SplitCommaFreeTokens(["meat", "ornamental"]);
    assert Join(["meat", "ornamental"], PurposeSeparator) == s;
    assert Split(s, PurposeSeparator) == ["meat", "ornamental"];
    assert !IsDualPurpose(Split(s, PurposeSeparator));
  }

  lemma ConvertPurposeEggsOnly(s: string)
    requires s == "eggs"
    ensures ConvertPurpose(s) == ["eggs"]
  {
    SplitCommaFreeTokens(["eggs"]);
    assert Split(s, PurposeSeparator) == ["eggs"];
    assert !IsDualPurpose(Split(s, PurposeSeparator));
  }

  /** Matching is case-sensitive: capitalized "Meat" and "Eggs" do not collapse. */
  lemma ConvertPurposeIsCaseSensitive(s: string)
    requires s == "Meat, Eggs"
    ensures ConvertPurpose(s) == ["Meat", "Eggs"]
  {
    SplitCommaFreeTokens(["Meat", "Eggs"]);
    assert Join(["Meat", "Eggs"], PurposeSeparator) == s;
    assert Split(s, PurposeSeparator) == ["Meat", "Eggs"];
    assert !IsDualPurpose(Split(s, PurposeSeparator));
  }

  // ---------------------------------------------------------------------
  // getApaClassDescription
  // ---------------------------------------------------------------------

  /** The description of an APA class; there is none for any other name. */
  function GetApaClassDescription(apaClass: string): (r: Option<string>)
    ensures r.Some? <==> apaClass in {"American", "Asiatic", "Continental",
      "All Other Standard Breeds", "Mediterranean", "English", "Not Listed"}
    ensures r.Some? ==> r.value == ClassDescriptions[apaClass]
  {
    Lookup(ClassDescriptions, apaClass)
  }

  /** Lookup is exact: a name that differs only in case, or in spacing, has no description. */
  lemma ApaClassLookupIsExact()
    ensures GetApaClassDescription("American").Some?
    ensures GetApaClassDescription("american") == None
    ensures GetApaClassDescription("Not listed") == None
    ensures GetApaClassDescription("NotListed") == None
    ensures GetApaClassDescription("Unknown") == None
  {
  }

  // ---------------------------------------------------------------------
  // getBreedPurposeDescription and capitalizeFirstLetter
  // ---------------------------------------------------------------------

  /** `word[0].toUpperCase()` on an empty word reads `undefined` and throws. */
  datatype Fault = TypeError

  /** `word[0].toUpperCase() + word.slice(1)` on a non-empty word. */
  function CapitalizeFirstLetter(word: string): (r: string)
    requires |word| > 0
    ensures |r| == |word| && r[1..] == word[1..]
    ensures r[0] == ToUpperChar(word[0]) && !IsAsciiLower(r[0])
  {
    [ToUpperChar(word[0])] + word[1..]
  }

  /** Capitalizing twice is capitalizing once. */
  lemma CapitalizeFirstLetterIdempotent(word: string)
    requires |word| > 0
    ensures CapitalizeFirstLetter(CapitalizeFirstLetter(word)) == CapitalizeFirstLetter(word)
  {
  }

  /**
    The description of a breed purpose: "show" stands for "Exhibition"; any
    other purpose is looked up with its first letter capitalized, and an
    empty purpose throws.
  */
  function GetBreedPurposeDescription(purpose: string): (r: Result<Option<string>, Fault>)
    ensures r.Failure? <==> purpose == ""
    ensures purpose == "show" ==> r == Success(Some(PurposeDescriptions["Exhibition"]))
    ensures purpose != "show" && |purpose| > 0 ==>
      r == Success(Lookup(PurposeDescriptions, [ToUpperChar(purpose[0])] + purpose[1..]))
  {
    if purpose == "show" then Success(Lookup(PurposeDescriptions, "Exhibition"))
    else if |purpose| == 0 then Failure(TypeError)
    else Success(Lookup(PurposeDescriptions, CapitalizeFirstLetter(purpose)))
  }

  /** "show" is the same purpose as "Exhibition", whichever case its first letter has; "Show" is not. */
  lemma ShowIsExhibition()
    ensures GetBreedPurposeDescription("show") == GetBreedPurposeDescription("Exhibition")
    ensures GetBreedPurposeDescription("exhibition") == GetBreedPurposeDescription("Exhibition")
    ensures GetBreedPurposeDescription("Exhibition").Success?
         && GetBreedPurposeDescription("Exhibition").value.Some?
    ensures GetBreedPurposeDescription("Show") == Success(None)
  {
    assert CapitalizeFirstLetter("Exhibition") == "Exhibition";
    assert CapitalizeFirstLetter("exhibition") == "Exhibition";
    assert CapitalizeFirstLetter("Show") == "Show";
  }

  /**
    Two purposes other than "show" that differ only in the case of their
    first letter have the same description ("show" and "Show" do not).
  */
  lemma PurposeFirstLetterCaseIgnored(p: string, q: string)
    requires |p| > 0 && |q| > 0 && p != "show" && q != "show"
    requires p[1..] == q[1..] && ToUpperChar(p[0]) == ToUpperChar(q[0])
    ensures GetBreedPurposeDescription(p) == GetBreedPurposeDescription(q)
  {
  }

  /** The purposes that have a description: "show", each key of the table, and each key with a lower-case first letter. */
  const DescribedPurposes: set<string> := {
    "show",
    "Eggs", "eggs", "Meat", "meat", "Ornamental", "ornamental",
    "Exhibition", "exhibition", "Feathers", "feathers",
    "Broody hens", "broody hens", "Dual-purpose", "dual-purpose"
  }

  /** The lower-case-first variants of a capitalized key are exactly the words that capitalize to it. */
  lemma CapitalizePreimage(word: string, key: string)
    requires |word| > 0 && |key| > 0 && IsAsciiUpper(key[0])
    ensures CapitalizeFirstLetter(word) == key <==> word == key || word == [ToLowerChar(key[0])] + key[1..]
  {
    ToUpperCharPreimage(word[0], key[0]);
    if CapitalizeFirstLetter(word) == key {
      assert word == [word[0]] + key[1..];
    }
    if word == key {
      assert key == [key[0]] + key[1..];
    }
  }

  /** The words that capitalize to "Eggs", "Meat", "Ornamental" or "Exhibition". */
  lemma PreimageOfFirstKeys(purpose: string)
    requires |purpose| > 0
    ensures CapitalizeFirstLetter(purpose) in {"Eggs", "Meat", "Ornamental", "Exhibition"}
        <==> purpose in {"Eggs", "eggs", "Meat", "meat", "Ornamental", "ornamental", "Exhibition", "exhibition"}
  {
    CapitalizePreimage(purpose, "Eggs");
    assert [ToLowerChar('E')] + "Eggs"[1..] == "eggs";
    CapitalizePreimage(purpose, "Meat");
    assert [ToLowerChar('M')] + "Meat"[1..] == "meat";
    CapitalizePreimage(purpose, "Ornamental");
    assert [ToLowerChar('O')] + "Ornamental"[1..] == "ornamental";
    CapitalizePreimage(purpose, "Exhibition");
    assert [ToLowerChar('E')] + "Exhibition"[1..] == "exhibition";
  }

  /** The words that capitalize to "Feathers", "Broody hens" or "Dual-purpose". */
  lemma PreimageOfLastKeys(purpose: string)
    requires |purpose| > 0
    ensures CapitalizeFirstLetter(purpose) in {"Feathers", "Broody hens", "Dual-purpose"}
        <==> purpose in {"Feathers", "feathers", "Broody hens", "broody hens", "Dual-purpose", "dual-purpose"}
  {
    CapitalizePreimage(purpose, "Feathers");
    assert [ToLowerChar('F')] + "Feathers"[1..] == "feathers";
    CapitalizePreimage(purpose, "Broody hens");
    assert [ToLowerChar('B')] + "Broody hens"[1..] == "broody hens";
    CapitalizePreimage(purpose, "Dual-purpose");
    assert [ToLowerChar('D')] + "Dual-purpose"[1..] == "dual-purpose";
  }

  /** A purpose has a description exactly when it is one of DescribedPurposes. */
  lemma PurposeDescriptionDomain(purpose: string)
    ensures (GetBreedPurposeDescription(purpose).Success?
          && GetBreedPurposeDescription(purpose).value.Some?)
        <==> purpose in DescribedPurposes
  {
    if purpose != "show" && |purpose| > 0 {
      PreimageOfFirstKeys(purpose);
      PreimageOfLastKeys(purpose);
      assert PurposeDescriptions.Keys
          == {"Eggs", "Meat", "Ornamental", "Exhibition", "Feathers", "Broody hens", "Dual-purpose"};
    }
  }

  /** The token that the dual-purpose rule produces has a description. */
  lemma DualPurposeIsDescribed(purposes: string)
    requires IsDualPurpose(Split(purposes, PurposeSeparator))
    ensures GetBreedPurposeDescription(ConvertPurpose(purposes)[0])
         == Success(Some(PurposeDescriptions[DualPurpose]))
  {
    assert CapitalizeFirstLetter(DualPurpose) == DualPurpose;
  }

  /** An empty purpose string converts to one empty token, whose description throws. */
  lemma EmptyPurposeThrows()
    ensures ConvertPurpose("") == [""]
    ensures GetBreedPurposeDescription(ConvertPurpose("")[0]) == Failure(TypeError)
  {
  }

  // ---------------------------------------------------------------------
  // Property lookup as JavaScript performs it (see Findings)
  // ---------------------------------------------------------------------

  /** What `table[key]` yields on a plain object literal. */
  datatype PropertyValue = Own(text: string) | Inherited(member: string) | Undefined

  /** The properties every plain object inherits from `Object.prototype`. */
  const ObjectPrototypeMembers: set<string> := {
    "constructor", "hasOwnProperty", "isPrototypeOf", "propertyIsEnumerable",
    "toLocaleString", "toString", "valueOf", "__proto__",
    "__defineGetter__", "__defineSetter__", "__lookupGetter__", "__lookupSetter__"
  }

  /** `table[key]` on an object literal: its own property, else one inherited from `Object.prototype`. */
  function PropertyLookup(table: map<string, string>, key: string): (v: PropertyValue)
    ensures v.Own? <==> key in table
    ensures v.Undefined? <==> key !in table && key !in ObjectPrototypeMembers
    ensures v.Own? ==> v.text == table[key]
    ensures v.Inherited? ==> v.member == key
  {
    if key in table then Own(table[key])
    else if key in ObjectPrototypeMembers then Inherited(key)
    else Undefined
  }

  /** Away from the inherited member names, the lookup as written and Lookup agree. */
  lemma PropertyLookupAgreesWithLookup(table: map<string, string>, key: string)
    requires key !in ObjectPrototypeMembers
    ensures PropertyLookup(table, key) == match Lookup(table, key)
      case Some(text) => Own(text)
      case None => Undefined
  {
  }

  /**
    As written, the class name "constructor" yields the `Object` constructor
    inherited from `Object.prototype`, while the model reports no description.
  */
  lemma InheritedClassMemberIsNotAbsent()
    ensures PropertyLookup(ClassDescriptions, "constructor") == Inherited("constructor")
    ensures GetApaClassDescription("constructor") == None
  {
  }

  /**
    As written, the purpose "__proto__", which capitalizing leaves unchanged,
    yields `Object.prototype` itself, while the model reports no description.
  */
  lemma InheritedPurposeMemberIsNotAbsent()
    ensures PropertyLookup(PurposeDescriptions, CapitalizeFirstLetter("__proto__")) == Inherited("__proto__")
    ensures GetBreedPurposeDescription("__proto__") == Success(None)
  {
    assert CapitalizeFirstLetter("__proto__") == "__proto__";
  }

  // ---------------------------------------------------------------------
  // addImageUrlToBreeds
  // ---------------------------------------------------------------------

  const ImageDirectory: string := "assets/breed_photos/"
  const ImageExtension: string := ".jpg"

  /** The file name of a breed's photo: its name without whitespace, in lower case. */
  function Slug(name: string): (slug: string)
    ensures |slug| <= |name|
    ensures forall i :: 0 <= i < |slug| ==> !IsWhitespace(slug[i]) && !IsAsciiUpper(slug[i])
  {
    var stripped := StripWhitespace(name);
    assert forall i :: 0 <= i < |stripped| ==> !IsWhitespace(ToLowerChar(stripped[i])) by {
      forall i | 0 <= i < |stripped| ensures !IsWhitespace(ToLowerChar(stripped[i])) {
        ToLowerCharKeepsWhitespace(stripped[i]);
      }
    }
    LowerCase(stripped)
  }

  /** The path of a breed's photo. */
  function ImageUrl(name: string): (url: string)
    ensures |url| == |ImageDirectory| + |Slug(name)| + |ImageExtension|
    ensures StartsWith(url, ImageDirectory)
    ensures url[|url| - |ImageExtension|..] == ImageExtension
    ensures url[|ImageDirectory|..|url| - |ImageExtension|] == Slug(name)
  {
    var url := ImageDirectory + Slug(name) + ImageExtension;
    assert url[..|ImageDirectory|] == ImageDirectory;
    assert url[|ImageDirectory|..|url| - |ImageExtension|] == Slug(name);
    url
  }

  /** Two breeds share a photo path exactly when their slugs agree. */
  lemma ImageUrlSharedIff(a: string, b: string)
    ensures ImageUrl(a) == ImageUrl(b) <==> Slug(a) == Slug(b)
  {
    if ImageUrl(a) == ImageUrl(b) {
      assert Slug(a) == ImageUrl(a)[|ImageDirectory|..|ImageUrl(a)| - |ImageExtension|];
    }
  }

  /** A slug is its own slug, so a slug always names the same photo as the breed it came from. */
  lemma SlugIdempotent(name: string)
    ensures Slug(Slug(name)) == Slug(name)
  {
    var s := Slug(name);
    assert StripWhitespace(s) == s;
    assert LowerCase(s) == s;
  }

  /** The slug of a concatenation is the concatenation of the slugs. */
  lemma SlugAppend(a: string, b: string)
    ensures Slug(a + b) == Slug(a) + Slug(b)
  {
    StripWhitespaceAppend(a, b);
    assert LowerCase(StripWhitespace(a) + StripWhitespace(b))
        == LowerCase(StripWhitespace(a)) + LowerCase(StripWhitespace(b));
  }

  /** Whitespace inside a name does not change the photo path. */
  lemma ImageUrlIgnoresWhitespace(a: string, w: char, b: string)
    requires IsWhitespace(w)
    ensures ImageUrl(a + [w] + b) == ImageUrl(a + b)
  {
    SlugAppend(a + [w], b);
    SlugAppend(a, [w]);
    SlugAppend(a, b);
    assert StripWhitespace([w]) == [];
    assert Slug([w]) == [];
    assert Slug(a) + Slug([w]) == Slug(a);
  }

  /** The case of a name's ASCII letters does not change the photo path. */
  lemma ImageUrlIgnoresCase(name: string)
    ensures ImageUrl(LowerCase(name)) == ImageUrl(name)
  {
    var s := StripWhitespace(name);
    StripLowerCommute(name);
    assert LowerCase(LowerCase(s)) == LowerCase(s);
    assert Slug(LowerCase(name)) == Slug(name);
  }

  /** Stripping whitespace and lower-casing can be done in either order. */
  lemma {:induction false} StripLowerCommute(s: string)
    ensures StripWhitespace(LowerCase(s)) == LowerCase(StripWhitespace(s))
    decreases |s|
  {
    if |s| > 0 {
      StripLowerCommute(s[1..]);
      assert LowerCase(s)[1..] == LowerCase(s[1..]);
      ToLowerCharKeepsWhitespace(s[0]);
      if !IsWhitespace(s[0]) {
        assert LowerCase([s[0]] + StripWhitespace(s[1..]))
            == [ToLowerChar(s[0])] + LowerCase(StripWhitespace(s[1..]));
      }
    }
  }

  /** A breed record; `imgUrl` is absent until the service adds it. */
  class Breed {
    var breed: string
    var imgUrl: Option<string>

    constructor (name: string)
      ensures breed == name && imgUrl == None
    {
      breed := name;
      imgUrl := None;
    }
  }

  /**
    Sets the photo path of every breed in the array, in place, and returns
    the same array. Names are left alone. The last ensures is the
    idempotence corollary of the two before it: a record whose path was
    already set is left as it was, so running it again changes nothing.
  */
  method AddImageUrlToBreeds(breeds: array<Breed>) returns (result: array<Breed>)
    modifies set i | 0 <= i < breeds.Length :: breeds[i]
    ensures result == breeds
    ensures breeds[..] == old(breeds[..])
    ensures forall i :: 0 <= i < breeds.Length ==> breeds[i].breed == old(breeds[i].breed)
    ensures forall i :: 0 <= i < breeds.Length ==> breeds[i].imgUrl == Some(ImageUrl(breeds[i].breed))
    ensures forall i :: 0 <= i < breeds.Length && old(breeds[i].imgUrl) == Some(ImageUrl(old(breeds[i].breed)))
              ==> breeds[i].imgUrl == old(breeds[i].imgUrl)
  {
    for i := 0 to breeds.Length
      invariant forall k :: 0 <= k < breeds.Length ==> breeds[k].breed == old(breeds[k].breed)
      invariant forall k :: 0 <= k < i ==> breeds[k].imgUrl == Some(ImageUrl(breeds[k].breed))
    {
      breeds[i].imgUrl := Some(ImageUrl(breeds[i].breed));
    }
    result := breeds;
  }

  /**
    A client that runs the service twice over a one-record array: the
    record ends with the photo path of its name both times.
  */
  method AddImageUrlTwice(name: string) returns (once: Option<string>, twice: Option<string>)
    ensures once == twice == Some(ImageUrl(name))
  {
    var record := new Breed(name);
    var breeds := new Breed[1](_ => record);
    var same := AddImageUrlToBreeds(breeds);
    once := same[0].imgUrl;
    same := AddImageUrlToBreeds(same);
    twice := same[0].imgUrl;
  }

  /** A space between two parts of a name is dropped from the slug. */
  lemma StripAroundSpace(x: string, y: string)
    ensures StripWhitespace(x + " " + y) == StripWhitespace(x) + StripWhitespace(y)
  {
    StripWhitespaceAppend(x + " ", y);
    StripWhitespaceAppend(x, " ");
    assert StripWhitespace(" ") == "";
  }

  /** Three whitespace-free words joined by single spaces get the path of the words run together in lower case. */
  lemma ImageUrlOfThreeWords(a: string, b: string, c: string)
    requires forall i :: 0 <= i < |a| ==> !IsWhitespace(a[i])
    requires forall i :: 0 <= i < |b| ==> !IsWhitespace(b[i])
    requires forall i :: 0 <= i < |c| ==> !IsWhitespace(c[i])
    ensures ImageUrl(a + " " + b + " " + c) == ImageDirectory + LowerCase(a + b + c) + ImageExtension
  {
    var ab := a + " " + b;
    StripAroundSpace(a, b);
    StripAroundSpace(ab, c);
    assert StripWhitespace(a + " " + b + " " + c) == a + b + c;
  }

  /** A word made of ASCII letters holds no whitespace. */
  lemma LettersAreNotWhitespace(s: string)
    requires forall i :: 0 <= i < |s| ==> IsAsciiUpper(s[i]) || IsAsciiLower(s[i])
    ensures forall i :: 0 <= i < |s| ==> !IsWhitespace(s[i])
  {
  }

  /** The three words of "Rhode Island Red" run together and lower-cased. */
  lemma LowerCaseRhodeIslandRed()
    ensures LowerCase("Rhode" + "Island" + "Red") == "rhodeislandred"
  {
  }

  /**
    "Rhode Island Red" has the photo path "assets/breed_photos/rhodeislandred.jpg".
    The words are parameters fixed by `requires`, which keeps the solver from
    unfolding `StripWhitespace` on the whole literal.
  */
  lemma ImageUrlRhodeIslandRed(a: string, b: string, c: string)
    requires a == "Rhode" && b == "Island" && c == "Red"
    ensures ImageUrl(a + " " + b + " " + c) == "assets/breed_photos/rhodeislandred.jpg"
  {
    LettersAreNotWhitespace(a);
    LettersAreNotWhitespace(b);
    LettersAreNotWhitespace(c);
    ImageUrlOfThreeWords(a, b, c);
    LowerCaseRhodeIslandRed();
  }
}
