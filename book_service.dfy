/**
 * service/impl/BookServiceImpl.java: book operations over the book repository, raising
 * NotFound where a book must exist. Its frame is the book repository alone.
 */
module BookServices {
  import opened Wrappers
  import opened Entities
  import opened Mappers
  import opened BookRepositories
  import opened Storages

  /** `getAllBooks`' result: the DTO of each stored book exactly once, in no particular order. */
  ghost predicate IsDtoSnapshot(dtos: seq<BookDto>, books: map<int, BookEntity>) {
    && |dtos| == |books|
    && (forall i :: 0 <= i < |dtos| ==>
          dtos[i].id.Some? && dtos[i].id.value in books && dtos[i] == BookEntityToBookDto(books[dtos[i].id.value]))
    && (forall k :: k in books ==> BookEntityToBookDto(books[k]) in dtos)
    && (forall i, j :: 0 <= i < j < |dtos| ==> dtos[i].id != dtos[j].id)
  }

  /** The stream `map(bookEntityToBookDto)`, element by element. */
  function BookEntitiesToDtos(entities: seq<BookEntity>): (dtos: seq<BookDto>)
    ensures |dtos| == |entities|
    ensures forall i :: 0 <= i < |entities| ==> dtos[i] == BookEntityToBookDto(entities[i])
  {
    seq(|entities|, i requires 0 <= i < |entities| => BookEntityToBookDto(entities[i]))
  }

  /** Mapping a snapshot of the entities gives a snapshot of their DTOs. */
  lemma DtosOfSnapshot(entities: seq<BookEntity>, books: map<int, BookEntity>)
    requires IsSnapshot(entities, books)
    ensures IsDtoSnapshot(BookEntitiesToDtos(entities), books)
  {
    var dtos := BookEntitiesToDtos(entities);
    forall k | k in books
      ensures BookEntityToBookDto(books[k]) in dtos
    {
      var i :| 0 <= i < |entities| && entities[i] == books[k];
      assert dtos[i] == BookEntityToBookDto(books[k]);
    }
  }

  class BookServiceImpl {
    const storage: Storage

    constructor (storage: Storage)
      ensures this.storage == storage
    {
      this.storage := storage;
    }

    ghost predicate Valid()
      reads storage.bookRepository
    {
      storage.bookRepository.Valid()
    }

    /** Saves the mapped book; a book without an id receives a fresh one, its owner and fields kept. */
    method CreateBook(bookDto: BookDto) returns (created: BookDto)
      requires Valid()
      modifies storage.bookRepository
      ensures Valid()
      ensures var (t, saved) := SaveBook(old(storage.bookRepository.Table()), BookDtoToBookEntity(bookDto));
        storage.bookRepository.Table() == t && created == BookEntityToBookDto(saved)
      ensures bookDto.id.None? ==>
        && created == bookDto.(id := Some(storage.bookRepository.idGenerator))
        && created.id.value !in old(storage.bookRepository.books)
        && storage.bookRepository.books[created.id.value] == BookDtoToBookEntity(created)
    {
      var bookRepository := storage.bookRepository;
      var bookEntity := BookDtoToBookEntity(bookDto);
      var savedBook := bookRepository.Save(bookEntity);
      created := BookEntityToBookDto(savedBook);
    }

    /**
     * Looks the book up (NotFound when absent) and saves the FOUND book back, so the DTO's
     * field values are ignored and stored state never changes.
     */
    method UpdateBook(bookDto: BookDto) returns (r: Result<BookDto, Error>)
      requires Valid()
      modifies storage.bookRepository
      ensures Valid()
      ensures storage.bookRepository.Table() == old(storage.bookRepository.Table())
      ensures r.Failure? <==> bookDto.id.None? || bookDto.id.value !in storage.bookRepository.books
      ensures r.Failure? ==> r.error == NotFound(Book, bookDto.id)
      ensures r.Success? ==>
        r.value == BookEntityToBookDto(storage.bookRepository.books[bookDto.id.value]) && r.value.id == bookDto.id
    {
      var bookRepository := storage.bookRepository;
      var foundBook := FindBookById(bookDto.id);
      if foundBook.Failure? {
        return Failure(foundBook.error);
      }
      SaveStoredBookIsNoOp(bookRepository.Table(), bookDto.id.value);
      var updatedBook := bookRepository.Save(foundBook.value);
      return Success(BookEntityToBookDto(updatedBook));
    }

    /** NotFound when no book is stored under the id, and always for a null id. */
    method GetBookById(id: Option<int>) returns (r: Result<BookDto, Error>)
      requires Valid()
      ensures r.Failure? <==> id.None? || id.value !in storage.bookRepository.books
      ensures r.Failure? ==> r.error == NotFound(Book, id)
      ensures r.Success? ==> r.value == BookEntityToBookDto(storage.bookRepository.books[id.value]) && r.value.id == id
    {
      var foundBook := FindBookById(id);
      if foundBook.Failure? {
        return Failure(foundBook.error);
      }
      return Success(BookEntityToBookDto(foundBook.value));
    }

    /** Never fails; one DTO per stored book, so an empty store gives an empty list. */
    method GetAllBooks() returns (dtos: seq<BookDto>)
      requires Valid()
      ensures IsDtoSnapshot(dtos, storage.bookRepository.books)
    {
      var entities := storage.bookRepository.FindAll();
      DtosOfSnapshot(entities, storage.bookRepository.books);
      dtos := BookEntitiesToDtos(entities);
    }

    /** Removes the book when it exists; an absent or null id is no error and no change. */
    method DeleteBookById(id: Option<int>)
      requires Valid()
      modifies storage.bookRepository
      ensures Valid()
      ensures id.Some? ==> storage.bookRepository.Table() == DeleteBook(old(storage.bookRepository.Table()), id.value)
      ensures id.None? ==> storage.bookRepository.Table() == old(storage.bookRepository.Table())
    {
      var bookRepository := storage.bookRepository;
      var present := bookRepository.ExistsById(id);
      if present {
        bookRepository.DeleteById(id);
      }
    }

    /** `findById(...).orElseThrow(NotFound)`; a null id finds nothing, as no book is stored under null. */
    method FindBookById(id: Option<int>) returns (r: Result<BookEntity, Error>)
      requires Valid()
      ensures r.Success? <==> id.Some? && id.value in storage.bookRepository.books
      ensures r.Success? ==> r.value == storage.bookRepository.books[id.value] && r.value.id == id
      ensures r.Failure? ==> r.error == NotFound(Book, id)
    {
      var found := storage.bookRepository.FindById(id);
      match found
      case Some(book) => return Success(book);
      case None => return Failure(NotFound(Book, id));
    }
  }
}
