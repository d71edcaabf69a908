/** models.py: the stored entities. The `created` timestamps are not modelled. */
module Models {
  import opened Wrappers

  /** An ndb key id: auto-assigned integers, or a string name. */
  datatype Key = IntId(n: int) | NameId(name: string)

  /** `User`; `hashed_password` holds the record `"<hex digest>,<salt>"`. */
  datatype User = User(username: string, hashedPassword: string, email: Option<string>)

  /** A `User` entity together with the integer id of its key (`user.id()`). */
  datatype Account = Account(id: int, user: User)

  /** `BlogPost`; `likes` and `comments` are counters kept by the handlers. */
  datatype BlogPost = BlogPost(
    title: string, text: string, authorName: string, authorId: int,
    likes: int, comments: int)

  datatype Comment = Comment(postId: int, userId: int, userName: string, text: string)

  datatype Like = Like(postId: int, userId: int)

  /** A post as first stored: both counters take their default of 0. */
  function NewBlogPost(title: string, text: string, authorName: string, authorId: int): BlogPost
  {
    BlogPost(title, text, authorName, authorId, 0, 0)
  }
}
