/** BookServices: find, create, update and delete books in a repository modelled as a
    map from id to the stored entity. */
module Books {
  import opened Exceptions
  import opened JavaStrings

  /** The Book entity. launchDate is the Date's milliseconds and price the bit pattern of
      the Java double; both are only ever copied. */
  datatype Book = Book(id: Option<int>, author: string, launchDate: int, price: bv64, title: string)

  /** BookVO: the entity's fields under the name `key`, plus its HATEOAS links. */
  datatype BookVO = BookVO(key: Option<int>, author: string, launchDate: int, price: bv64, title: string,
                           links: seq<string>)

  /** The self link linkTo(methodOn(BookController.class).findById(id)) renders. */
  function SelfLink(id: int): (l: string)
    ensures StartsWith(l, "/api/book/v1/")
    ensures l[|"/api/book/v1/"|..] == LongToString(id)
  {
    assert ("/api/book/v1/" + LongToString(id))[..|"/api/book/v1/"|] == "/api/book/v1/";
    "/api/book/v1/" + LongToString(id)
  }

  /** DozerMapper.parseObject(vo, Book.class) */
  function ToEntity(vo: BookVO): Book
  {
    Book(vo.key, vo.author, vo.launchDate, vo.price, vo.title)
  }

  /** DozerMapper.parseObject(entity, BookVO.class): no links yet. */
  function ToVO(b: Book): BookVO
  {
    BookVO(b.id, b.author, b.launchDate, b.price, b.title, [])
  }

  /** vo.add(self link) */
  function WithSelfLink(vo: BookVO, id: int): BookVO
  {
    vo.(links := vo.links + [SelfLink(id)])
  }

  /** The four setters of update (lines 86-89). */
  function CopyFields(entity: Book, vo: BookVO): Book
  {
    entity.(author := vo.author, launchDate := vo.launchDate, price := vo.price, title := vo.title)
  }

  /** update writes the VO's author, launch date, price and title and keeps the stored id:
      the result is the VO's own content under the entity's id. */
  lemma CopyFieldsKeepsId(entity: Book, vo: BookVO)
    ensures CopyFields(entity, vo).id == entity.id
    ensures CopyFields(entity, vo) == ToEntity(vo).(id := entity.id)
    ensures ToVO(CopyFields(entity, vo)) == vo.(key := entity.id, links := [])
  {
  }

  /** Every stored entity carries the id it is stored under. */
  ghost predicate WellKeyed(repository: map<int, Book>)
  {
    forall k :: k in repository ==> repository[k].id == Some(k)
  }

  class BookServices {
    var repository: map<int, Book>

    ghost predicate Valid()
      reads this
    {
      WellKeyed(repository)
    }

    constructor (repository: map<int, Book>)
      requires WellKeyed(repository)
      ensures Valid() && this.repository == repository
    {
      this.repository := repository;
    }

    /** findById: the stored book with a self link for the requested id, or
        ResourceNotFoundException. */
    function FindById(id: int): (r: Result<BookVO>)
      reads this
      ensures id !in repository <==> r.Failure?
      ensures r.Failure? ==> r.error == ResourceNotFound(NoRecordsMessage)
      ensures r.Success? ==>
        var b := repository[id];
        r.value.key == b.id && r.value.author == b.author && r.value.title == b.title
        && r.value.price == b.price && r.value.launchDate == b.launchDate
        && r.value.links == [SelfLink(id)]
    {
      if id in repository then Success(WithSelfLink(ToVO(repository[id]), id))
      else Failure(ResourceNotFound(NoRecordsMessage))
    }

    /** repository.save: an entity without an id gets the one the database generates;
        an entity with an id is written under it. */
    method Save(entity: Book, generatedId: int) returns (saved: Book)
      requires Valid()
      requires entity.id.None? ==> generatedId !in repository
      modifies this
      ensures Valid()
      ensures saved == if entity.id.Some? then entity else entity.(id := Some(generatedId))
      ensures repository == old(repository)[saved.id.value := saved]
    {
      saved := if entity.id.Some? then entity else entity.(id := Some(generatedId));
      repository := repository[saved.id.value := saved];
    }

    /** create: reject null; otherwise save the mapped entity and return what was saved,
        with a self link for its key. */
    method Create(book: Option<BookVO>, generatedId: int) returns (r: Result<BookVO>)
      requires Valid()
      requires book.Some? && book.value.key.None? ==> generatedId !in repository
      modifies this
      ensures Valid()
      ensures book.None? ==>
        r == Failure(RequiredObjectIsNull(NullObjectMessage)) && repository == old(repository)
      ensures book.Some? ==>
        var k := if book.value.key.Some? then book.value.key.value else generatedId;
        repository == old(repository)[k := ToEntity(book.value).(id := Some(k))]
        && r == Success(WithSelfLink(book.value.(key := Some(k), links := []), k))
        && r == FindById(k)
    {
      if book.None? {
        return Failure(RequiredObjectIsNull(NullObjectMessage));
      }
      var entity := ToEntity(book.value);
      var saved := Save(entity, generatedId);
      var vo := ToVO(saved);
      r := Success(WithSelfLink(vo, vo.key.value));
    }

    /** update: reject null; look the key up (not found throws); copy the four fields onto
        the stored entity and save it; every other entry is unchanged. */
    method Update(book: Option<BookVO>) returns (r: Result<BookVO>)
      requires Valid()
      modifies this
      ensures Valid()
      ensures book.None? ==>
        r == Failure(RequiredObjectIsNull(NullObjectMessage)) && repository == old(repository)
      ensures book.Some? && book.value.key.None? ==>
        r == Failure(IllegalArgument(NullIdMessage)) && repository == old(repository)
      ensures book.Some? && book.value.key.Some? && book.value.key.value !in old(repository) ==>
        r == Failure(ResourceNotFound(NoRecordsMessage)) && repository == old(repository)
      ensures book.Some? && book.value.key.Some? && book.value.key.value in old(repository) ==>
        var k := book.value.key.value;
        repository == old(repository)[k := CopyFields(old(repository)[k], book.value)]
        && repository[k] == ToEntity(book.value)
        && r == Success(WithSelfLink(book.value.(links := []), k))
        && r == FindById(k)
    {
      if book.None? {
        return Failure(RequiredObjectIsNull(NullObjectMessage));
      }
      if book.value.key.None? {
        return Failure(IllegalArgument(NullIdMessage));
      }
      var k := book.value.key.value;
      if k !in repository {
        return Failure(ResourceNotFound(NoRecordsMessage));
      }
      var entity := repository[k];
      entity := entity.(author := book.value.author);
      entity := entity.(launchDate := book.value.launchDate);
      entity := entity.(price := book.value.price);
      entity := entity.(title := book.value.title);
      var saved := Save(entity, k);
      var vo := ToVO(saved);
      r := Success(WithSelfLink(vo, vo.key.value));
    }

    /** delete: look the id up (not found throws), then remove that one entry. */
    method Delete(id: int) returns (r: Result<()>)
      requires Valid()
      modifies this
      ensures Valid()
      ensures id !in old(repository) ==>
        r == Failure(ResourceNotFound(NoRecordsMessage)) && repository == old(repository)
      ensures id in old(repository) ==>
        r == Success(()) && repository == old(repository) - {id}
        && FindById(id) == Failure(ResourceNotFound(NoRecordsMessage))
    {
      if id !in repository {
        return Failure(ResourceNotFound(NoRecordsMessage));
      }
      var entity := repository[id];
      repository := repository - {entity.id.value};
      r := Success(());
    }
  }

  /** The unit test's fixture: stored mock book 1 is found with its author, title, the
      price 25.0 and the self link "/api/book/v1/1". */
  lemma FindMockBook(s: BookServices, launchDate: int)
    requires s.repository == map[1 := Book(Some(1), "Some Author1", launchDate, 0x4039000000000000, "Some Title1")]
    ensures s.FindById(1) == Success(BookVO(Some(1), "Some Author1", launchDate, 0x4039000000000000,
                                            "Some Title1", ["/api/book/v1/1"]))
  {
    assert LongToString(1) == "1";
    assert SelfLink(1) == "/api/book/v1/1";
  }
}
