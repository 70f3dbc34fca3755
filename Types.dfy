/** The records the components pass around (the TypeScript interfaces of the
    project), with optional fields as `Option`. Prices, ratings and student
    counts are integers: the components only compare and subtract them. */
module Types {

  datatype Option<+T> = None | Some(value: T) {
    /** `x ?? d` */
    function GetOr(d: T): T {
      match this
      case Some(v) => v
      case None => d
    }
  }

  datatype Level = Beginner | Intermediate | Advanced

  /** The string literal of each `CourseLevel`. */
  function LevelName(l: Level): string {
    match l
    case Beginner => "Beginner"
    case Intermediate => "Intermediate"
    case Advanced => "Advanced"
  }

  /** The five members of the `SortOption` string enum. */
  datatype SortOption = Featured | Rating | Students | PriceLow | PriceHigh

  datatype LessonKind = Video | Reading | Quiz

  datatype Lesson = Lesson(id: string, title: string, kind: LessonKind, freePreview: bool)

  /** A curriculum section (`Module` in the source). */
  datatype CourseModule = CourseModule(id: string, title: string, lessons: seq<Lesson>)

  datatype Review = Review(id: string, studentName: string, rating: int, comment: string)

  datatype RelatedCourse = RelatedCourse(id: string, slug: string, title: string, price: int, rating: int)

  datatype Course = Course(
    id: string,
    slug: string,
    title: string,
    description: Option<string>,
    category: Option<string>,
    price: int,
    originalPrice: Option<int>,
    rating: int,
    reviewCount: Option<int>,
    students: Option<int>,
    level: Option<Level>,
    featured: Option<bool>,
    skills: Option<seq<string>>,
    instructorName: string,
    curriculum: seq<CourseModule>,
    reviews: seq<Review>,
    relatedCourses: seq<RelatedCourse>,
    learningObjectives: Option<seq<string>>,
    requirements: Option<seq<string>>,
    lastUpdated: Option<string>)

  datatype User = User(
    id: string,
    name: string,
    email: string,
    avatar: Option<string>,
    role: Option<string>,
    enrolledCourses: seq<string>)
}
