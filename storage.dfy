/** storage/Storage.java: the holder through which both services reach the two repositories. */
module Storages {
  import opened UserRepositories
  import opened BookRepositories

  class Storage {
    const userRepository: UserRepository
    const bookRepository: BookRepository

    constructor (userRepository: UserRepository, bookRepository: BookRepository)
      ensures this.userRepository == userRepository && this.bookRepository == bookRepository
    {
      this.userRepository := userRepository;
      this.bookRepository := bookRepository;
    }
  }
}
