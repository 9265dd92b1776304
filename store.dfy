/** The database as the route handlers see it: four tables that the handlers
    change one write at a time. Each method is one Prisma write call. */
module Db {
  import opened Model

  class Store {
    var books: seq<Book>
    var requests: seq<BorrowRequest>
    var checkouts: seq<Checkout>
    var audit: seq<AuditEntry>

    ghost predicate Valid()
      reads this`books
    {
      UniqueBookIds(books)
    }

    /** The four tables as one value, for stating what a handler did to them. */
    function Snapshot(): Tables
      reads this
    {
      Tables(books, requests, checkouts, audit)
    }

    constructor (t: Tables)
      requires UniqueBookIds(t.books)
      ensures Valid() && Snapshot() == t
    {
      books, requests, checkouts, audit := t.books, t.requests, t.checkouts, t.audit;
    }

    /** `prisma.book.create`. */
    method CreateBook(b: Book)
      requires Valid() && FindBook(books, b.id).None?
      modifies this`books
      ensures Valid()
      ensures books == old(books) + [b]
      ensures requests == old(requests) && checkouts == old(checkouts) && audit == old(audit)
    {
      books := books + [b];
    }

    /** `prisma.book.update({ where: { id }, data: { status } })`; the book exists. */
    method UpdateBookStatus(id: Id, status: BookStatus)
      requires Valid() && FindBook(books, id).Some?
      modifies this`books
      ensures Valid()
      ensures books == WithStatus(old(books), id, status)
      ensures requests == old(requests) && checkouts == old(checkouts) && audit == old(audit)
      ensures FindBook(books, id) == Some(FindBook(old(books), id).value.(status := status))
    {
      WithStatusFound(books, id, status);
      books := WithStatus(books, id, status);
    }

    /** `prisma.borrowRequest.create`. */
    method CreateRequest(r: BorrowRequest)
      modifies this`requests
      ensures requests == old(requests) + [r]
      ensures books == old(books) && checkouts == old(checkouts) && audit == old(audit)
    {
      requests := requests + [r];
    }

    /** `prisma.auditLog.create`: the log is only ever appended to. */
    method AppendAudit(e: AuditEntry)
      modifies this`audit
      ensures audit == old(audit) + [e]
      ensures books == old(books) && requests == old(requests) && checkouts == old(checkouts)
    {
      audit := audit + [e];
    }
  }
}
